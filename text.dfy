/** The pieces of Python's `str` behaviour the pipeline relies on:
    whitespace and digit classes, `lower()`, `strip()`, the `in` substring
    test, `"\n".join` and `split("\n")`, and `str(int)`. */
module Text {

  /** `str.isspace()` for one character; Python's regex `\s` on a `str`
      pattern uses the same table. */
  predicate IsSpace(c: char) {
    var n := c as int;
    (9 <= n <= 13) || (28 <= n <= 32) || n == 0x85 || n == 0xA0 || n == 0x1680
    || (0x2000 <= n <= 0x200A) || n == 0x2028 || n == 0x2029 || n == 0x202F
    || n == 0x205F || n == 0x3000
  }

  /** Regex `\d`, restricted to ASCII digits. */
  predicate IsDigit(c: char) {
    '0' <= c <= '9'
  }

  /** `str.lower()` for one character, restricted to ASCII letters. */
  function LowerChar(c: char): (r: char)
    ensures 'A' <= c <= 'Z' ==> r as int == c as int + 32
    ensures !('A' <= c <= 'Z') ==> r == c
    ensures !('A' <= r <= 'Z')
  {
    if 'A' <= c <= 'Z' then (c as int + 32) as char else c
  }

  function Lower(s: string): (r: string)
    ensures |r| == |s|
    ensures forall i :: 0 <= i < |s| ==> r[i] == LowerChar(s[i])
  {
    if s == [] then [] else [LowerChar(s[0])] + Lower(s[1..])
  }

  lemma LowerIdempotent(s: string)
    ensures Lower(Lower(s)) == Lower(s)
  {
  }

  // ---------------------------------------------------------------------
  // Runs of characters

  /** The end of the longest run of characters satisfying `p` that starts
      at `i`: the first index at or after `i` whose character fails `p`, or
      `|s|`. */
  function RunEnd(s: string, i: nat, p: char -> bool): (k: nat)
    requires i <= |s|
    ensures i <= k <= |s|
    ensures forall m :: i <= m < k ==> p(s[m])
    ensures k == |s| || !p(s[k])
    decreases |s| - i
  {
    if i == |s| || !p(s[i]) then i else RunEnd(s, i + 1, p)
  }

  /** The two ensures of RunEnd determine it: any index with the same two
      properties is RunEnd. */
  lemma {:induction false} RunEndUnique(s: string, i: nat, p: char -> bool, k: nat)
    requires i <= k <= |s|
    requires forall m :: i <= m < k ==> p(s[m])
    requires k == |s| || !p(s[k])
    ensures RunEnd(s, i, p) == k
    decreases |s| - i
  {
    if i < k {
      RunEndUnique(s, i + 1, p, k);
    }
  }

  /** The start of the longest run of characters satisfying `p` that ends
      just before `hi`, not going below `lo`. */
  function RunStartBack(s: string, lo: nat, hi: nat, p: char -> bool): (k: nat)
    requires lo <= hi <= |s|
    ensures lo <= k <= hi
    ensures forall m :: k <= m < hi ==> p(s[m])
    ensures k == lo || !p(s[k - 1])
    decreases hi - lo
  {
    if hi == lo || !p(s[hi - 1]) then hi else RunStartBack(s, lo, hi - 1, p)
  }

  // ---------------------------------------------------------------------
  // str.strip()

  /** `s[i..j]` is what stripping `s` leaves: everything outside it is
      whitespace and, unless it is empty, it starts and ends with a
      non-whitespace character. */
  ghost predicate StrippedAt(s: string, i: int, j: int) {
    && 0 <= i <= j <= |s|
    && (forall m :: 0 <= m < i ==> IsSpace(s[m]))
    && (forall m :: j <= m < |s| ==> IsSpace(s[m]))
    && (i < j ==> !IsSpace(s[i]) && !IsSpace(s[j - 1]))
  }

  /** Python's `str.strip()` with no argument. */
  function Strip(s: string): (r: string)
    ensures r == [] || (!IsSpace(r[0]) && !IsSpace(r[|r| - 1]))
    ensures exists i, j :: StrippedAt(s, i, j) && r == s[i..j]
  {
    var i := RunEnd(s, 0, IsSpace);
    var j := RunStartBack(s, i, |s|, IsSpace);
    assert StrippedAt(s, i, j);
    s[i..j]
  }

  /** Stripping is fully determined by StrippedAt: any slice with those
      properties is the result. */
  lemma StripUnique(s: string, i: int, j: int)
    requires StrippedAt(s, i, j)
    ensures Strip(s) == s[i..j]
  {
    var a := RunEnd(s, 0, IsSpace);
    var b := RunStartBack(s, a, |s|, IsSpace);
    if i < j {
      RunEndUnique(s, 0, IsSpace, i);
      assert b == j;
    } else {
      assert forall m :: 0 <= m < |s| ==> IsSpace(s[m]);
      RunEndUnique(s, 0, IsSpace, |s|);
    }
  }

  /** A trailing newline makes no difference to strip. */
  lemma StripNewline(s: string)
    ensures Strip(s + "\n") == Strip(s)
  {
    var i, j := StripBounds(s);
    StrippedAtNewline(s, i, j);
    StripUnique(s + "\n", i, j);
    assert (s + "\n")[i..j] == s[i..j];
  }

  /** The bounds of the slice that strip keeps. */
  lemma StripBounds(s: string) returns (i: nat, j: nat)
    ensures StrippedAt(s, i, j) && Strip(s) == s[i..j]
  {
    i := RunEnd(s, 0, IsSpace);
    j := RunStartBack(s, i, |s|, IsSpace);
  }

  lemma StrippedAtNewline(s: string, i: int, j: int)
    requires StrippedAt(s, i, j)
    ensures StrippedAt(s + "\n", i, j)
  {
    var t := s + "\n";
    assert forall m :: 0 <= m < |s| ==> t[m] == s[m];
  }

  /** Stripping a text framed by two line breaks gives the text back,
      when the text itself neither starts nor ends with whitespace. */
  lemma StripFramed(body: string)
    requires body != [] && !IsSpace(body[0]) && !IsSpace(body[|body| - 1])
    ensures Strip("\n" + body + "\n") == body
  {
    var s := "\n" + body + "\n";
    assert s[1] == body[0] && s[|s| - 2] == body[|body| - 1];
    assert StrippedAt(s, 1, |s| - 1);
    StripUnique(s, 1, |s| - 1);
    assert s[1..|s| - 1] == body;
  }

  /** A string without surrounding whitespace is left alone by strip. */
  lemma StripNoSurroundingSpace(s: string)
    requires s == [] || (!IsSpace(s[0]) && !IsSpace(s[|s| - 1]))
    ensures Strip(s) == s
  {
    if s != [] {
      assert StrippedAt(s, 0, |s|);
      StripUnique(s, 0, |s|);
      assert s[0..|s|] == s;
    }
  }

  // ---------------------------------------------------------------------
  // The `in` substring test

  /** `w` occurs in `s` starting at index `i`. */
  predicate HasAt(s: string, i: int, w: string) {
    0 <= i && i + |w| <= |s| && s[i..i + |w|] == w
  }

  /** `w` occurs somewhere in `s`. */
  ghost predicate Occurs(s: string, w: string) {
    exists i :: HasAt(s, i, w)
  }

  /** Python's `w in s` for strings: a left-to-right search. */
  predicate Contains(s: string, w: string)
    decreases |s|
  {
    if |s| < |w| then false
    else s[..|w|] == w || Contains(s[1..], w)
  }

  /** The search finds `w` exactly when it occurs. */
  lemma {:induction false} ContainsIffOccurs(s: string, w: string)
    ensures Contains(s, w) <==> Occurs(s, w)
    decreases |s|
  {
    if |s| >= |w| {
      if s[..|w|] == w {
        assert HasAt(s, 0, w);
      } else {
        ContainsIffOccurs(s[1..], w);
        if Contains(s[1..], w) {
          var i :| HasAt(s[1..], i, w);
          HasAtShift(s, i, w);
        } else if Occurs(s, w) {
          var i :| HasAt(s, i, w);
          assert i != 0;
          HasAtShift(s, i - 1, w);
        }
      }
    }
  }

  /** An occurrence in the tail is one position later in the string. */
  lemma HasAtShift(s: string, i: nat, w: string)
    requires s != []
    ensures HasAt(s[1..], i, w) <==> HasAt(s, i + 1, w)
  {
    if i + |w| <= |s[1..]| {
      assert s[1..][i..i + |w|] == s[i + 1..i + 1 + |w|];
    }
  }

  // ---------------------------------------------------------------------
  // Subsequences

  /** `a` can be obtained from `b` by deleting characters. */
  predicate IsSubsequence(a: string, b: string)
    decreases |b|
  {
    if a == [] then true
    else if b == [] then false
    else (a[0] == b[0] && IsSubsequence(a[1..], b[1..])) || IsSubsequence(a, b[1..])
  }

  lemma {:induction false} SubsequenceLength(a: string, b: string)
    requires IsSubsequence(a, b)
    ensures |a| <= |b|
    decreases |b|
  {
    if a != [] {
      if a[0] == b[0] && IsSubsequence(a[1..], b[1..]) {
        SubsequenceLength(a[1..], b[1..]);
      } else {
        SubsequenceLength(a, b[1..]);
      }
    }
  }

  /** Dropping the first character of a subsequence keeps it one. */
  lemma {:induction false} SubsequenceDropFirst(a: string, b: string)
    requires a != [] && IsSubsequence(a, b)
    ensures IsSubsequence(a[1..], b)
    decreases |b|
  {
    if a[0] == b[0] && IsSubsequence(a[1..], b[1..]) {
      SubsequenceSkip(a[1..], b[1..], b[0]);
    } else {
      SubsequenceDropFirst(a, b[1..]);
      SubsequenceSkip(a[1..], b[1..], b[0]);
    }
  }

  lemma SubsequenceSkip(a: string, b: string, c: char)
    requires IsSubsequence(a, b)
    ensures IsSubsequence(a, [c] + b)
  {
    var cb := [c] + b;
    assert cb[1..] == b;
  }

  /** Dropping the last character of a subsequence keeps it one. */
  lemma {:induction false} SubsequenceDropLast(a: string, b: string)
    requires a != [] && IsSubsequence(a, b)
    ensures IsSubsequence(a[..|a| - 1], b)
    decreases |b|
  {
    var a' := a[..|a| - 1];
    if |a| == 1 {
      assert a' == [];
    } else if a[0] == b[0] && IsSubsequence(a[1..], b[1..]) {
      SubsequenceDropLast(a[1..], b[1..]);
      assert a[1..][..|a| - 2] == a'[1..];
    } else {
      SubsequenceDropLast(a, b[1..]);
    }
  }

  /** Every prefix of a subsequence of `b` is a subsequence of `b`. */
  lemma {:induction false} SubsequencePrefix(a: string, b: string, j: nat)
    requires j <= |a| && IsSubsequence(a, b)
    ensures IsSubsequence(a[..j], b)
    decreases |a| - j
  {
    if j < |a| {
      SubsequenceDropLast(a, b);
      assert a[..|a| - 1][..j] == a[..j];
      SubsequencePrefix(a[..|a| - 1], b, j);
    } else {
      assert a[..j] == a;
    }
  }

  /** Every suffix of a subsequence of `b` is a subsequence of `b`. */
  lemma {:induction false} SubsequenceSuffix(a: string, b: string, i: nat)
    requires i <= |a| && IsSubsequence(a, b)
    ensures IsSubsequence(a[i..], b)
    decreases i
  {
    if 0 < i {
      SubsequenceDropFirst(a, b);
      assert a[1..][i - 1..] == a[i..];
      SubsequenceSuffix(a[1..], b, i - 1);
    }
  }

  /** Every slice of a subsequence of `b` is a subsequence of `b`. */
  lemma SubsequenceSlice(a: string, b: string, i: nat, j: nat)
    requires i <= j <= |a| && IsSubsequence(a, b)
    ensures IsSubsequence(a[i..j], b)
  {
    SubsequencePrefix(a, b, j);
    SubsequenceSuffix(a[..j], b, i);
    assert a[..j][i..] == a[i..j];
  }

  // ---------------------------------------------------------------------
  // "\n".join(lines) and s.split("\n")

  /** Python's `"\n".join(lines)`. */
  function JoinLines(lines: seq<string>): (r: string)
    ensures lines == [] ==> r == []
    ensures |lines| == 1 ==> r == lines[0]
  {
    if lines == [] then []
    else if |lines| == 1 then lines[0]
    else lines[0] + "\n" + JoinLines(lines[1..])
  }

  /** Python's `s.split("\n")`: always at least one piece. */
  function SplitLines(s: string): (r: seq<string>)
    ensures |r| >= 1
    ensures forall k :: 0 <= k < |r| ==> '\n' !in r[k]
    decreases |s|
  {
    if s == [] then [[]]
    else
      var rest := SplitLines(s[1..]);
      if s[0] == '\n' then [[]] + rest
      else [[s[0]] + rest[0]] + rest[1..]
  }

  lemma {:induction false} SplitNoNewline(x: string)
    requires '\n' !in x
    ensures SplitLines(x) == [x]
    decreases |x|
  {
    if x != [] {
      SplitNoNewline(x[1..]);
      assert [x[0]] + x[1..] == x;
    }
  }

  lemma {:induction false} SplitAfterLine(x: string, y: string)
    requires '\n' !in x
    ensures SplitLines(x + "\n" + y) == [x] + SplitLines(y)
    decreases |x|
  {
    var s := x + "\n" + y;
    if x == [] {
      assert s[1..] == y;
    } else {
      assert s[1..] == x[1..] + "\n" + y;
      SplitAfterLine(x[1..], y);
      assert [x[0]] + x[1..] == x;
    }
  }

  /** Splitting a join gives the lines back, provided no line contains a
      newline and there is at least one line ("\n".join([]) splits to
      [""]). */
  lemma {:induction false} SplitJoin(lines: seq<string>)
    requires |lines| >= 1
    requires forall k :: 0 <= k < |lines| ==> '\n' !in lines[k]
    ensures SplitLines(JoinLines(lines)) == lines
    decreases |lines|
  {
    if |lines| == 1 {
      SplitNoNewline(lines[0]);
    } else {
      SplitAfterLine(lines[0], JoinLines(lines[1..]));
      SplitJoin(lines[1..]);
    }
  }

  lemma {:induction false} JoinFirstChar(lines: seq<string>)
    requires |lines| >= 1 && lines[0] != []
    ensures JoinLines(lines) != [] && JoinLines(lines)[0] == lines[0][0]
  {
  }

  lemma {:induction false} JoinLastChar(lines: seq<string>)
    requires |lines| >= 1 && lines[|lines| - 1] != []
    ensures JoinLines(lines) != []
    ensures JoinLines(lines)[|JoinLines(lines)| - 1] == lines[|lines| - 1][|lines[|lines| - 1]| - 1]
    decreases |lines|
  {
    if |lines| > 1 {
      JoinLastChar(lines[1..]);
    }
  }

  // ---------------------------------------------------------------------
  // str(n) for a non-negative integer

  function DigitChar(d: nat): (c: char)
    requires d < 10
    ensures IsDigit(c) && c as int - '0' as int == d
  {
    ('0' as int + d) as char
  }

  /** Python's `str(n)` for `n >= 0`: decimal digits, no sign, no leading
      zero. */
  function Decimal(n: nat): (r: string)
    ensures r != []
    ensures forall k :: 0 <= k < |r| ==> IsDigit(r[k])
    ensures r[0] == '0' ==> n == 0 && r == "0"
    decreases n
  {
    if n < 10 then [DigitChar(n)] else Decimal(n / 10) + [DigitChar(n % 10)]
  }

  function DigitValue(c: char): (d: nat)
    requires IsDigit(c)
    ensures d < 10 && DigitChar(d) == c
  {
    c as int - '0' as int
  }

  /** The value of a string of decimal digits (Python's `int(s)`). */
  function DecimalValue(s: string): nat
    requires forall k :: 0 <= k < |s| ==> IsDigit(s[k])
    decreases |s|
  {
    if s == [] then 0
    else 10 * DecimalValue(s[..|s| - 1]) + DigitValue(s[|s| - 1])
  }

  /** `int(str(n)) == n`. */
  lemma {:induction false} DecimalRoundTrip(n: nat)
    ensures DecimalValue(Decimal(n)) == n
    decreases n
  {
    var r := Decimal(n);
    if n >= 10 {
      DecimalRoundTrip(n / 10);
      assert r[..|r| - 1] == Decimal(n / 10);
    }
  }

  /** Distinct numbers have distinct decimal strings. */
  lemma DecimalInjective()
    ensures forall a: nat, b: nat :: Decimal(a) == Decimal(b) ==> a == b
  {
    forall a: nat, b: nat | Decimal(a) == Decimal(b)
      ensures a == b
    {
      DecimalRoundTrip(a);
      DecimalRoundTrip(b);
    }
  }
}
