/** Turning raw log lines into events: removal of terminal colour codes,
    the log-line pattern, and the loop over the lines of a file. */
module LogParser {
  import opened Wrappers
  import opened Text
  import opened Records

  // ---------------------------------------------------------------------
  // clean_line

  const ESC: char := '\U{1B}'

  /** The three byte classes of an ECMA-48 control sequence. */
  predicate IsParameterByte(c: char) { '0' <= c <= '?' }
  predicate IsIntermediateByte(c: char) { ' ' <= c <= '/' }
  predicate IsFinalByte(c: char) { '@' <= c <= '~' }

  /** `t[2..p]` are parameter bytes and `t[p..|t| - 1]` intermediate bytes. */
  predicate CsiSplit(t: string, p: int) {
    && 2 <= p < |t|
    && (forall m :: 2 <= m < p ==> IsParameterByte(t[m]))
    && (forall m :: p <= m < |t| - 1 ==> IsIntermediateByte(t[m]))
  }

  /** `t` is one whole control sequence: ESC, '[', parameter bytes,
      intermediate bytes and one final byte. */
  ghost predicate IsCsi(t: string) {
    && |t| >= 3 && t[0] == ESC && t[1] == '['
    && IsFinalByte(t[|t| - 1])
    && exists p :: CsiSplit(t, p)
  }

  /** The length of the control sequence that `s` starts with, if any. The
      three byte classes are disjoint, so the greedy runs of the pattern
      never need to give characters back, and at most one prefix of `s` is
      a control sequence. */
  function CsiLength(s: string): (r: Option<nat>)
    ensures r.Some? ==> 3 <= r.value <= |s| && IsCsi(s[..r.value])
    ensures r.Some? ==> forall k :: 0 <= k <= |s| && k != r.value ==> !IsCsi(s[..k])
    ensures r.None? ==> forall k :: 0 <= k <= |s| ==> !IsCsi(s[..k])
  {
    if |s| < 2 || s[0] != ESC || s[1] != '[' then None
    else
      var p := RunEnd(s, 2, IsParameterByte);
      var q := RunEnd(s, p, IsIntermediateByte);
      if q < |s| && IsFinalByte(s[q]) then
        assert CsiSplit(s[..q + 1], p);
        Some(q + 1)
      else
        None
  }

  /** `re.sub` of the colour-code pattern by "": scanning left to right, a
      control sequence starting at the scan position is dropped whole,
      any other character is kept. */
  function RemoveCsi(s: string): (r: string)
    decreases |s|
  {
    if s == [] then []
    else match CsiLength(s)
      case Some(k) => RemoveCsi(s[k..])
      case None => [s[0]] + RemoveCsi(s[1..])
  }

  /** What the substitution keeps is a subsequence of its input. */
  lemma {:induction false} RemoveCsiSubsequence(s: string)
    ensures IsSubsequence(RemoveCsi(s), s)
    decreases |s|
  {
    if s != [] {
      match CsiLength(s)
      case Some(k) =>
        RemoveCsiSubsequence(s[k..]);
        SubsequenceOfSuffix(RemoveCsi(s[k..]), s, k);
      case None =>
        RemoveCsiSubsequence(s[1..]);
        var r := RemoveCsi(s[1..]);
        assert ([s[0]] + r)[1..] == r;
    }
  }

  lemma {:induction false} SubsequenceOfSuffix(a: string, b: string, k: nat)
    requires k <= |b| && IsSubsequence(a, b[k..])
    ensures IsSubsequence(a, b)
    decreases k
  {
    if k > 0 {
      assert [b[k - 1]] + b[k..] == b[k - 1..];
      SubsequenceSkip(a, b[k..], b[k - 1]);
      SubsequenceOfSuffix(a, b, k - 1);
    }
  }

  /** A line without ESC characters has nothing to remove. */
  lemma {:induction false} RemoveCsiNoEscape(s: string)
    requires ESC !in s
    ensures RemoveCsi(s) == s
    decreases |s|
  {
    if s != [] {
      RemoveCsiNoEscape(s[1..]);
      assert [s[0]] + s[1..] == s;
    }
  }

  /** A text that starts with a whole control sequence is recognised as
      starting with exactly that one. */
  lemma CsiLengthOfCsi(c: string, b: string)
    requires IsCsi(c)
    ensures CsiLength(c + b) == Some(|c|)
  {
    assert (c + b)[..|c|] == c;
  }

  /** A character other than ESC at the scan position is kept. */
  lemma RemoveCsiKeep(x: char, t: string)
    requires x != ESC
    ensures RemoveCsi([x] + t) == [x] + RemoveCsi(t)
  {
    assert ([x] + t)[1..] == t;
  }

  /** An ESC that starts no control sequence is kept like any other
      character, and the scan goes on after it. */
  lemma RemoveCsiKeepEsc(s: string)
    requires s != [] && s[0] == ESC
    requires forall k :: 0 <= k <= |s| ==> !IsCsi(s[..k])
    ensures RemoveCsi(s) == [s[0]] + RemoveCsi(s[1..])
  {
  }

  /** A control sequence at the scan position is dropped whole. */
  lemma RemoveCsiDrop(c: string, b: string)
    requires IsCsi(c)
    ensures RemoveCsi(c + b) == RemoveCsi(b)
  {
    CsiLengthOfCsi(c, b);
    assert (c + b)[|c|..] == b;
  }

  /** ESC-free text before the scan position comes through unchanged. */
  lemma {:induction false} RemoveCsiPrefix(a: string, s: string)
    requires ESC !in a
    ensures RemoveCsi(a + s) == a + RemoveCsi(s)
    decreases |a|
  {
    if a == [] {
      assert a + s == s;
    } else {
      var x, rest := a[0], a[1..];
      assert ESC !in rest && x != ESC by {
        assert a == [x] + rest;
      }
      assert a + s == [x] + (rest + s);
      calc {
        RemoveCsi(a + s);
        == { RemoveCsiKeep(x, rest + s); }
        [x] + RemoveCsi(rest + s);
        == { RemoveCsiPrefix(rest, s); }
        [x] + (rest + RemoveCsi(s));
        == { assert [x] + rest == a; }
        a + RemoveCsi(s);
      }
    }
  }

  /** Plain text followed by a control sequence: the text is kept, the
      sequence is removed, and the scan goes on after it. */
  lemma RemoveCsiPlain(a: string, c: string, b: string)
    requires ESC !in a && IsCsi(c)
    ensures RemoveCsi(a + c + b) == a + RemoveCsi(b)
  {
    assert a + c + b == a + (c + b);
    RemoveCsiPrefix(a, c + b);
    RemoveCsiDrop(c, b);
  }

  /** `clean_line`: remove colour codes, then strip surrounding whitespace. */
  function CleanLine(line: string): (r: string)
  {
    Strip(RemoveCsi(line))
  }

  /** The cleaned line has no surrounding whitespace and is a subsequence
      of the raw line, so it is never longer. */
  lemma CleanLineShape(line: string)
    ensures var r := CleanLine(line);
      && (r == [] || (!IsSpace(r[0]) && !IsSpace(r[|r| - 1])))
      && IsSubsequence(r, line)
      && |r| <= |line|
  {
    var x := RemoveCsi(line);
    var r := Strip(x);
    var i, j :| StrippedAt(x, i, j) && r == x[i..j];
    RemoveCsiSubsequence(line);
    SubsequenceSlice(x, line, i, j);
    SubsequenceLength(CleanLine(line), line);
  }

  /** Without ESC characters, cleaning only strips. */
  lemma CleanLineNoEscape(line: string)
    requires ESC !in line
    ensures CleanLine(line) == Strip(line)
  {
    RemoveCsiNoEscape(line);
  }

  /** A coloured text, a control sequence on each side of ESC-free text,
      cleans to the stripped text. */
  lemma CleanLineColoured(lead: string, x: string, trail: string)
    requires IsCsi(lead) && IsCsi(trail) && ESC !in x
    ensures CleanLine(lead + x + trail) == Strip(x)
  {
    assert lead + x + trail == lead + (x + trail);
    RemoveCsiDrop(lead, x + trail);
    assert x + trail == x + trail + [];
    RemoveCsiPlain(x, trail, []);
    assert x + [] == x;
  }

  /** Cleaning is not idempotent: removing one control sequence can join
      an ESC before it with the text after it into a new one. */
  lemma CleanLineNotIdempotent()
    ensures CleanLine([ESC, ESC, '[', 'm', '[', 'm']) == [ESC, '[', 'm']
    ensures CleanLine([ESC, '[', 'm']) == []
  {
    var c := [ESC, '[', 'm'];
    assert CsiSplit(c, 2);
    assert IsCsi(c);
    var s := [ESC, ESC, '[', 'm', '[', 'm'];
    assert CsiLength(s) == None;
    assert s[1..] == c + "[m";
    RemoveCsiDrop(c, "[m");
    RemoveCsiNoEscape("[m");
    assert RemoveCsi(s) == [ESC] + "[m";
    StripNoSurroundingSpace(c);
    RemoveCsiDrop(c, []);
    assert c + [] == c;
  }

  // ---------------------------------------------------------------------
  // LOG_PATTERN

  /** `s[i..i + |tpl|]` follows the template `tpl`, where 'd' stands for
      any digit and every other character for itself. */
  predicate FitsAt(s: string, i: nat, tpl: string) {
    i + |tpl| <= |s|
    && forall k :: 0 <= k < |tpl| ==>
         if tpl[k] == 'd' then IsDigit(s[i + k]) else s[i + k] == tpl[k]
  }

  const DATE := "dddd-dd-dd"
  const CLOCK := "dd:dd:dd,"

  predicate AllSpace(w: string) {
    forall k :: 0 <= k < |w| ==> IsSpace(w[k])
  }

  predicate NotCloseBracket(c: char) { c != ']' }
  predicate NotNewline(c: char) { c != '\n' }

  /** `ts` is a date, whitespace from index 10 up to `j`, a clock time with
      a comma, and one or more digits. */
  predicate TimestampSplit(ts: string, j: int) {
    && 10 < j && j + 9 < |ts|
    && FitsAt(ts, 0, DATE)
    && (forall m :: 10 <= m < j ==> IsSpace(ts[m]))
    && FitsAt(ts, j, CLOCK)
    && (forall m :: j + 9 <= m < |ts| ==> IsDigit(ts[m]))
  }

  /** The timestamp group: `\d{4}-\d{2}-\d{2}\s+\d{2}:\d{2}:\d{2},\d+`. */
  ghost predicate IsTimestamp(ts: string) {
    exists j :: TimestampSplit(ts, j)
  }

  /** `t` is laid out as the pattern expects for the event `ev`: the
      timestamp, whitespace, the level, whitespace, the component in
      brackets, the message, and then either nothing or a newline. */
  predicate Layout(t: string, ev: LogEvent, ws1: string, ws2: string, rest: string) {
    && ws1 != [] && AllSpace(ws1)
    && ws2 != [] && AllSpace(ws2)
    && (rest == [] || rest[0] == '\n')
    && t == ev.timestamp + ws1 + LevelName(ev.level) + ws2 + "[" + ev.component + "]" + ev.message + rest
  }

  /** The pattern, anchored at the start of `t`, matches with the groups of
      `ev`. The component is non-empty and has no ']' (it may contain '[');
      the message is non-empty and has no newline, as `.` does not match
      one, and `.*?` before it matches the empty string. */
  ghost predicate Matches(t: string, ev: LogEvent) {
    && IsTimestamp(ev.timestamp)
    && ev.component != [] && ']' !in ev.component
    && ev.message != [] && '\n' !in ev.message
    && exists ws1, ws2, rest :: Layout(t, ev, ws1, ws2, rest)
  }

  /** The end of the timestamp group at the start of `t`, if there is one. */
  function TimestampEnd(t: string): (r: Option<nat>)
    ensures r.Some? ==> 10 < r.value <= |t| && TimestampSplit(t[..r.value], RunEnd(t, 10, IsSpace))
  {
    if !FitsAt(t, 0, DATE) then None
    else
      var j := RunEnd(t, 10, IsSpace);
      if j == 10 || !FitsAt(t, j, CLOCK) then None
      else
        var k := RunEnd(t, j + 9, IsDigit);
        if k == j + 9 then None
        else
          assert TimestampSplit(t[..k], j) by {
            var ts := t[..k];
            assert forall m :: 0 <= m < k ==> ts[m] == t[m];
          }
          Some(k)
  }

  /** The level alternation `INFO|WARN|ERROR|DEBUG` at index `b`. The four
      words start with different letters, so at most one can match. */
  function LevelAt(t: string, b: nat): (r: Option<Level>)
    ensures forall l :: HasAt(t, b, LevelName(l)) <==> r == Some(l)
  {
    if HasAt(t, b, "INFO") then Some(INFO)
    else if HasAt(t, b, "WARN") then Some(WARN)
    else if HasAt(t, b, "ERROR") then Some(ERROR)
    else if HasAt(t, b, "DEBUG") then Some(DEBUG)
    else None
  }

  /** The boundaries the pattern finds in a line: the timestamp is
      `t[..a]`, the level `t[b..c]`, the bracket `t[d]`, the component
      `t[d + 1..e]`, the closing bracket `t[e]` and the message
      `t[e + 1..f]`. */
  datatype Cuts = Cuts(a: nat, b: nat, level: Level, c: nat, d: nat, e: nat, f: nat)

  ghost predicate ValidCuts(t: string, k: Cuts) {
    && 10 < k.a <= |t| && TimestampSplit(t[..k.a], RunEnd(t, 10, IsSpace))
    && ValidBounds(t, k)
  }

  /** The part of ValidCuts after the timestamp. */
  ghost predicate ValidBounds(t: string, k: Cuts) {
    && k.a < k.b && k.c == k.b + |LevelName(k.level)|
    && k.c < k.d && k.d + 1 < k.e && k.e + 1 < k.f <= |t|
    && (forall m :: k.a <= m < k.b ==> IsSpace(t[m]))
    && t[k.b..k.c] == LevelName(k.level)
    && (forall m :: k.c <= m < k.d ==> IsSpace(t[m]))
    && t[k.d] == '['
    && (forall m :: k.d + 1 <= m < k.e ==> t[m] != ']')
    && t[k.e] == ']'
    && (forall m :: k.e + 1 <= m < k.f ==> t[m] != '\n')
    && (k.f == |t| || t[k.f] == '\n')
  }

  /** The pattern anchored at the start of `t`, scanned left to right. Each
      group is found by one run, because every part of the pattern starts
      with a character the part before it cannot consume. */
  function FindCuts(t: string): Option<Cuts>
  {
    match TimestampEnd(t)
    case None => None
    case Some(a) => CutsFrom(t, a)
  }

  /** The rest of the pattern, after a timestamp that ends at `a`:
      whitespace and the level. */
  function CutsFrom(t: string, a: nat): Option<Cuts>
    requires a <= |t|
  {
    var b := RunEnd(t, a, IsSpace);
    if b == a then None
    else match LevelAt(t, b)
      case None => None
      case Some(lv) => BracketCuts(t, a, b, lv)
  }

  /** The rest of the pattern after the level `lv` at `b`: whitespace,
      the bracketed component and the message. */
  function BracketCuts(t: string, a: nat, b: nat, lv: Level): Option<Cuts>
    requires b + |LevelName(lv)| <= |t|
  {
    var c := b + |LevelName(lv)|;
    var d := RunEnd(t, c, IsSpace);
    if d == c || d == |t| || t[d] != '[' then None
    else
      var e := RunEnd(t, d + 1, NotCloseBracket);
      if e == d + 1 || e == |t| then None
      else
        var f := RunEnd(t, e + 1, NotNewline);
        if f == e + 1 then None
        else Some(Cuts(a, b, lv, c, d, e, f))
  }

  /** The groups at the given boundaries. */
  function Groups(t: string, k: Cuts): LogEvent
    requires k.a <= |t| && k.d + 1 <= k.e <= |t| && k.e + 1 <= k.f <= |t|
  {
    LogEvent(t[..k.a], k.level, t[k.d + 1..k.e], t[k.e + 1..k.f])
  }

  /** `LOG_PATTERN.match`: the pattern matched at the start of `t`. */
  function MatchPrefix(t: string): Option<LogEvent>
  {
    match FindCuts(t)
    case None => None
    case Some(k) => Some(Groups(t, k))
  }

  lemma SliceJoin(s: string, i: nat, j: nat, k: nat)
    requires i <= j <= k <= |s|
    ensures s[i..j] + s[j..k] == s[i..k]
  {
  }

  /** Splitting a prefix `p + w` of `t` into its two parts. */
  lemma Peel(t: string, p: string, w: string)
    requires |p| + |w| <= |t| && t[..|p| + |w|] == p + w
    ensures t[..|p|] == p && t[|p|..|p| + |w|] == w
  {
    assert t[..|p|] == t[..|p| + |w|][..|p|];
    assert t[|p|..|p| + |w|] == t[..|p| + |w|][|p|..];
  }

  /** A property of every character of a slice is one of the characters of
      the string at those indices. */
  lemma SliceAll(t: string, i: nat, j: nat, p: char -> bool)
    requires i <= j <= |t|
    requires forall k :: 0 <= k < j - i ==> p(t[i..j][k])
    ensures forall m :: i <= m < j ==> p(t[m])
  {
    forall m | i <= m < j ensures p(t[m]) {
      assert t[m] == t[i..j][m - i];
    }
  }

  lemma DigitIsNotSpace(c: char)
    requires IsDigit(c)
    ensures !IsSpace(c)
  {
  }

  /** The groups at valid boundaries satisfy the conditions on each group. */
  lemma CutsGroups(t: string, k: Cuts)
    requires ValidCuts(t, k)
    ensures var ev := Groups(t, k);
      && IsTimestamp(ev.timestamp)
      && ev.component != [] && ']' !in ev.component
      && ev.message != [] && '\n' !in ev.message
  {
    var ev := Groups(t, k);
    assert TimestampSplit(t[..k.a], RunEnd(t, 10, IsSpace));
    assert forall m :: 0 <= m < |ev.component| ==> ev.component[m] == t[k.d + 1 + m];
    assert forall m :: 0 <= m < |ev.message| ==> ev.message[m] == t[k.e + 1 + m];
  }

  /** The line is the concatenation of the groups and what lies between
      them. */
  lemma CutsLayout(t: string, k: Cuts)
    requires ValidBounds(t, k)
    ensures Layout(t, Groups(t, k), t[k.a..k.b], t[k.c..k.d], t[k.f..])
  {
    var ev := Groups(t, k);
    var ws1, ws2, rest := t[k.a..k.b], t[k.c..k.d], t[k.f..];
    SliceAllSpace(t, k.a, k.b);
    SliceAllSpace(t, k.c, k.d);
    assert rest == [] || rest[0] == '\n';
    CutsConcat(t, k);
  }

  lemma SliceAllSpace(t: string, i: nat, j: nat)
    requires i <= j <= |t| && forall m :: i <= m < j ==> IsSpace(t[m])
    ensures AllSpace(t[i..j])
  {
    assert forall m :: 0 <= m < j - i ==> t[i..j][m] == t[i + m];
  }

  /** The line is the groups joined with the text between them. */
  lemma CutsConcat(t: string, k: Cuts)
    requires k.a <= k.b <= k.c <= k.d && k.d + 1 <= k.e && k.e + 1 <= k.f <= |t|
    requires t[k.b..k.c] == LevelName(k.level) && t[k.d] == '[' && t[k.e] == ']'
    ensures var ev := Groups(t, k);
      t == ev.timestamp + t[k.a..k.b] + LevelName(ev.level) + t[k.c..k.d] + "[" + ev.component + "]" + ev.message + t[k.f..]
  {
    var a, b, c, d, e, f := k.a, k.b, k.c, k.d, k.e, k.f;
    assert t[d..d + 1] == "[";
    assert t[e..e + 1] == "]";
    SliceJoin(t, 0, a, b);
    SliceJoin(t, 0, b, c);
    SliceJoin(t, 0, c, d);
    SliceJoin(t, 0, d, d + 1);
    SliceJoin(t, 0, d + 1, e);
    SliceJoin(t, 0, e, e + 1);
    SliceJoin(t, 0, e + 1, f);
    SliceJoin(t, 0, f, |t|);
    assert t[..|t|] == t;
  }

  /** The groups at valid boundaries are a match of the pattern. */
  lemma CutsSound(t: string, k: Cuts)
    requires ValidCuts(t, k)
    ensures Matches(t, Groups(t, k))
  {
    CutsGroups(t, k);
    CutsLayout(t, k);
  }

  /** Whatever boundaries FindCuts returns have the properties ValidCuts
      lists. */
  lemma FindCutsValid(t: string)
    requires FindCuts(t).Some?
    ensures ValidCuts(t, FindCuts(t).value)
  {
  }

  /** Whatever MatchPrefix returns is a match of the pattern. */
  lemma MatchPrefixSound(t: string)
    requires MatchPrefix(t).Some?
    ensures Matches(t, MatchPrefix(t).value)
  {
    FindCutsValid(t);
    CutsSound(t, FindCuts(t).value);
  }

  /** The parts of a match lie at the boundaries A < B < C < D < E < F:
      timestamp, whitespace, level, whitespace, "[", component, "]",
      message, then the end of the line or a newline. */
  ghost predicate Placed(t: string, ev: LogEvent, A: nat, B: nat, C: nat, D: nat, E: nat, F: nat) {
    && A == |ev.timestamp| && A < B && C == B + |LevelName(ev.level)| && C < D
    && E == D + 1 + |ev.component| && F == E + 1 + |ev.message| && F <= |t|
    && t[..A] == ev.timestamp && AllSpace(t[A..B]) && t[B..C] == LevelName(ev.level)
    && AllSpace(t[C..D]) && t[D] == '[' && t[D + 1..E] == ev.component && t[E] == ']'
    && t[E + 1..F] == ev.message && (F == |t| || t[F] == '\n')
  }

  /** Where each part of a layout lies in the line. */
  lemma LayoutSlices(t: string, ev: LogEvent, ws1: string, ws2: string, rest: string)
    requires Layout(t, ev, ws1, ws2, rest)
    ensures var A := |ev.timestamp|;
      var B := A + |ws1|;
      var C := B + |LevelName(ev.level)|;
      var D := C + |ws2|;
      var E := D + 1 + |ev.component|;
      Placed(t, ev, A, B, C, D, E, E + 1 + |ev.message|)
  {
    var ts, name, comp, msg := ev.timestamp, LevelName(ev.level), ev.component, ev.message;
    var P2 := ts + ws1;
    var P3 := P2 + name;
    var P4 := P3 + ws2;
    var P5 := P4 + "[";
    var P6 := P5 + comp;
    var P7 := P6 + "]";
    var P8 := P7 + msg;
    assert t == P8 + rest;
    assert t[..|P8|] == P8;
    Peel(t, P7, msg);
    Peel(t, P6, "]");
    Peel(t, P5, comp);
    Peel(t, P4, "[");
    Peel(t, P3, ws2);
    Peel(t, P2, name);
    Peel(t, ts, ws1);
    assert |P8| < |t| ==> t[|P8|] == rest[0];
  }

  /** The boundaries of a match, found from its layout. */
  lemma MatchPlaced(t: string, ev: LogEvent) returns (A: nat, B: nat, C: nat, D: nat, E: nat, F: nat)
    requires Matches(t, ev)
    ensures Placed(t, ev, A, B, C, D, E, F)
  {
    var ws1, ws2, rest :| Layout(t, ev, ws1, ws2, rest);
    LayoutSlices(t, ev, ws1, ws2, rest);
    A := |ev.timestamp|;
    B := A + |ws1|;
    C := B + |LevelName(ev.level)|;
    D := C + |ws2|;
    E := D + 1 + |ev.component|;
    F := E + 1 + |ev.message|;
  }

  /** Every match of the pattern is the one MatchPrefix finds. */
  lemma MatchPrefixComplete(t: string, ev: LogEvent)
    requires Matches(t, ev)
    ensures MatchPrefix(t) == Some(ev)
  {
    var A, B, C, D, E, F := MatchPlaced(t, ev);
    MatchPrefixPlaced(t, ev, A, B, C, D, E, F);
  }

  /** The scanner stops at each boundary of a placed match, and the
      groups it cuts out are the match's. */
  lemma MatchPrefixPlaced(t: string, ev: LogEvent, A: nat, B: nat, C: nat, D: nat, E: nat, F: nat)
    requires IsTimestamp(ev.timestamp)
    requires ev.component != [] && ']' !in ev.component
    requires ev.message != [] && '\n' !in ev.message
    requires Placed(t, ev, A, B, C, D, E, F)
    ensures MatchPrefix(t) == Some(ev)
  {
    var k := Cuts(A, B, ev.level, C, D, E, F);
    assert FindCuts(t) == Some(k) by {
      FindCutsPlaced(t, ev, A, B, C, D, E, F);
    }
    assert Groups(t, k) == ev by {
      assert t[..A] == ev.timestamp && t[D + 1..E] == ev.component && t[E + 1..F] == ev.message;
    }
  }

  /** The scanner's runs end at the boundaries of a placed match. */
  lemma FindCutsPlaced(t: string, ev: LogEvent, A: nat, B: nat, C: nat, D: nat, E: nat, F: nat)
    requires IsTimestamp(ev.timestamp)
    requires ev.component != [] && ']' !in ev.component
    requires ev.message != [] && '\n' !in ev.message
    requires Placed(t, ev, A, B, C, D, E, F)
    ensures FindCuts(t) == Some(Cuts(A, B, ev.level, C, D, E, F))
  {
    PlacedTimestamp(t, ev, A, B, C, D, E, F);
    PlacedLevel(t, ev, A, B, C, D, E, F);
    PlacedComponent(t, ev, A, B, C, D, E, F);
    FindCutsAt(t, A, B, ev.level, C, D, E, F);
  }

  lemma PlacedTimestamp(t: string, ev: LogEvent, A: nat, B: nat, C: nat, D: nat, E: nat, F: nat)
    requires IsTimestamp(ev.timestamp)
    requires Placed(t, ev, A, B, C, D, E, F)
    ensures TimestampEnd(t) == Some(A)
  {
    var j :| TimestampSplit(ev.timestamp, j);
    assert t[A] == t[A..B][0];
    TimestampFound(t, ev.timestamp, j, t[A]);
  }

  lemma PlacedLevel(t: string, ev: LogEvent, A: nat, B: nat, C: nat, D: nat, E: nat, F: nat)
    requires Placed(t, ev, A, B, C, D, E, F)
    ensures RunEnd(t, A, IsSpace) == B && LevelAt(t, B) == Some(ev.level) && RunEnd(t, C, IsSpace) == D
  {
    SliceAll(t, A, B, IsSpace);
    SliceAll(t, C, D, IsSpace);
    LevelFound(t, ev.level, A, B, C, D);
  }

  lemma PlacedComponent(t: string, ev: LogEvent, A: nat, B: nat, C: nat, D: nat, E: nat, F: nat)
    requires ev.component != [] && ']' !in ev.component
    requires ev.message != [] && '\n' !in ev.message
    requires Placed(t, ev, A, B, C, D, E, F)
    ensures RunEnd(t, D + 1, NotCloseBracket) == E && RunEnd(t, E + 1, NotNewline) == F
  {
    SliceAll(t, D + 1, E, NotCloseBracket);
    SliceAll(t, E + 1, F, NotNewline);
    ComponentFound(t, D, E, F);
  }

  /** FindCuts returns these boundaries when each of its runs ends where
      they say. */
  lemma FindCutsAt(t: string, a: nat, b: nat, lv: Level, c: nat, d: nat, e: nat, f: nat)
    requires TimestampEnd(t) == Some(a)
    requires RunEnd(t, a, IsSpace) == b && b != a
    requires LevelAt(t, b) == Some(lv) && c == b + |LevelName(lv)|
    requires RunEnd(t, c, IsSpace) == d && d != c
    requires d < |t| && t[d] == '['
    requires RunEnd(t, d + 1, NotCloseBracket) == e && e != d + 1 && e < |t|
    requires RunEnd(t, e + 1, NotNewline) == f && f != e + 1
    ensures FindCuts(t) == Some(Cuts(a, b, lv, c, d, e, f))
  {
    assert HasAt(t, b, LevelName(lv));
    assert CutsFrom(t, a) == BracketCuts(t, a, b, lv);
    BracketCutsAt(t, a, b, lv, c, d, e, f);
  }

  lemma BracketCutsAt(t: string, a: nat, b: nat, lv: Level, c: nat, d: nat, e: nat, f: nat)
    requires c == b + |LevelName(lv)| && c <= |t|
    requires RunEnd(t, c, IsSpace) == d && d != c
    requires d < |t| && t[d] == '['
    requires RunEnd(t, d + 1, NotCloseBracket) == e && e != d + 1 && e < |t|
    requires RunEnd(t, e + 1, NotNewline) == f && f != e + 1
    ensures BracketCuts(t, a, b, lv) == Some(Cuts(a, b, lv, c, d, e, f))
  {
  }

  lemma TimestampFound(t: string, ts: string, j: int, next: char)
    requires TimestampSplit(ts, j) && |ts| < |t| && t[..|ts|] == ts && t[|ts|] == next && IsSpace(next)
    ensures TimestampEnd(t) == Some(|ts|)
  {
    var A := |ts|;
    assert forall m :: 0 <= m < A ==> t[m] == ts[m];
    assert FitsAt(t, 0, DATE) && FitsAt(t, j, CLOCK);
    assert forall m :: 10 <= m < j ==> IsSpace(t[m]);
    assert forall m :: j + 9 <= m < A ==> IsDigit(t[m]);
    assert CLOCK[0] == 'd';
    DigitIsNotSpace(t[j]);
    RunEndUnique(t, 10, IsSpace, j);
    RunEndUnique(t, j + 9, IsDigit, A);
  }

  lemma LevelFound(t: string, lv: Level, A: nat, B: nat, C: nat, D: nat)
    requires A < B && C == B + |LevelName(lv)| && C < D < |t|
    requires forall m :: A <= m < B ==> IsSpace(t[m])
    requires t[B..C] == LevelName(lv)
    requires forall m :: C <= m < D ==> IsSpace(t[m])
    requires t[D] == '['
    ensures RunEnd(t, A, IsSpace) == B && LevelAt(t, B) == Some(lv) && RunEnd(t, C, IsSpace) == D
  {
    assert t[B] == LevelName(lv)[0];
    RunEndUnique(t, A, IsSpace, B);
    assert HasAt(t, B, LevelName(lv));
    RunEndUnique(t, C, IsSpace, D);
  }

  lemma ComponentFound(t: string, D: nat, E: nat, F: nat)
    requires D + 1 < E < F <= |t|
    requires forall m :: D + 1 <= m < E ==> NotCloseBracket(t[m])
    requires t[E] == ']'
    requires forall m :: E + 1 <= m < F ==> NotNewline(t[m])
    requires F == |t| || t[F] == '\n'
    ensures RunEnd(t, D + 1, NotCloseBracket) == E && RunEnd(t, E + 1, NotNewline) == F
  {
    RunEndUnique(t, D + 1, NotCloseBracket, E);
    RunEndUnique(t, E + 1, NotNewline, F);
  }
  /** The pattern matches the start of `t` with groups `ev` exactly when
      MatchPrefix returns `ev`; in particular the groups are unique. */
  lemma MatchPrefixCorrect(t: string, ev: LogEvent)
    ensures MatchPrefix(t) == Some(ev) <==> Matches(t, ev)
  {
    if MatchPrefix(t) == Some(ev) {
      MatchPrefixSound(t);
    }
    if Matches(t, ev) {
      MatchPrefixComplete(t, ev);
    }
  }

  /** On a line without newlines, the message is the whole remainder of
      the line after the bracket that closes the component, leading
      spaces included: the lazy `.*?` matches nothing. */
  lemma MessageIsRemainder(t: string, ev: LogEvent)
    requires Matches(t, ev) && '\n' !in t
    ensures |ev.message| < |t| && t[|t| - |ev.message| - 1] == ']'
    ensures t[|t| - |ev.message|..] == ev.message
  {
    var A, B, C, D, E, F := MatchPlaced(t, ev);
    assert F == |t|;
  }

  // ---------------------------------------------------------------------
  // LOG_PATTERN.search

  /** Some match of the pattern starts at position `i` of `line`. */
  ghost predicate MatchStartsAt(line: string, i: nat) {
    i <= |line| && exists ev :: Matches(line[i..], ev)
  }

  /** `ev` is matched at `i`, and no match starts before `i`. */
  ghost predicate EarliestMatch(line: string, i: nat, ev: LogEvent) {
    && i <= |line| && Matches(line[i..], ev)
    && forall j: nat :: j < i ==> !MatchStartsAt(line, j)
  }

  /** The matcher succeeds at `i` exactly when a match starts there. */
  lemma StartsAtIff(line: string, i: nat)
    requires i <= |line|
    ensures MatchStartsAt(line, i) <==> MatchPrefix(line[i..]).Some?
  {
    if MatchPrefix(line[i..]).Some? {
      MatchPrefixSound(line[i..]);
    }
    if MatchStartsAt(line, i) {
      var ev :| Matches(line[i..], ev);
      MatchPrefixComplete(line[i..], ev);
    }
  }

  /** The first position at or after `i` where the matcher succeeds. */
  function FirstMatchFrom(line: string, i: nat): (r: Option<nat>)
    ensures r.Some? ==> i <= r.value <= |line| && MatchPrefix(line[r.value..]).Some?
    ensures r.Some? ==> forall j :: i <= j < r.value ==> MatchPrefix(line[j..]).None?
    ensures r.None? ==> forall j :: i <= j <= |line| ==> MatchPrefix(line[j..]).None?
    decreases |line| + 1 - i
  {
    if i > |line| then None
    else if MatchPrefix(line[i..]).Some? then Some(i)
    else
      var r := FirstMatchFrom(line, i + 1);
      FirstMatchStep(line, i, r);
      r
  }

  /** No match at `i` extends what is known from `i + 1` on to `i`. */
  lemma FirstMatchStep(line: string, i: nat, r: Option<nat>)
    requires i <= |line| && MatchPrefix(line[i..]).None?
    requires r.Some? ==> i + 1 <= r.value <= |line| && MatchPrefix(line[r.value..]).Some?
    requires r.Some? ==> forall j :: i + 1 <= j < r.value ==> MatchPrefix(line[j..]).None?
    requires r.None? ==> forall j :: i + 1 <= j <= |line| ==> MatchPrefix(line[j..]).None?
    ensures r.Some? ==> i <= r.value <= |line| && MatchPrefix(line[r.value..]).Some?
    ensures r.Some? ==> forall j :: i <= j < r.value ==> MatchPrefix(line[j..]).None?
    ensures r.None? ==> forall j :: i <= j <= |line| ==> MatchPrefix(line[j..]).None?
  {
  }

  /** `LOG_PATTERN.search(line)`: the groups of the match at the earliest
      position where the pattern matches. */
  function Search(line: string): Option<LogEvent>
  {
    match FirstMatchFrom(line, 0)
    case None => None
    case Some(i) => MatchPrefix(line[i..])
  }

  /** Search returns `ev` exactly when `ev` is matched at the earliest
      position where anything matches. */
  lemma SearchSome(line: string, ev: LogEvent)
    ensures Search(line) == Some(ev) <==> exists i: nat :: EarliestMatch(line, i, ev)
  {
    forall j: nat | j <= |line|
      ensures MatchStartsAt(line, j) <==> MatchPrefix(line[j..]).Some?
    {
      StartsAtIff(line, j);
    }
    match FirstMatchFrom(line, 0)
    case None =>
      forall i: nat ensures !EarliestMatch(line, i, ev) {
        if i <= |line| {
          assert !MatchStartsAt(line, i);
        }
      }
    case Some(i) =>
      MatchPrefixSound(line[i..]);
      var found := MatchPrefix(line[i..]).value;
      assert EarliestMatch(line, i, found);
      if i': nat :| EarliestMatch(line, i', ev) {
        assert MatchStartsAt(line, i');
        assert MatchStartsAt(line, i);
        assert i' == i;
        MatchPrefixComplete(line[i..], ev);
      }
  }

  /** Search finds nothing exactly when no match starts anywhere. */
  lemma SearchNone(line: string)
    ensures Search(line).None? <==> forall i: nat :: i <= |line| ==> !MatchStartsAt(line, i)
  {
    forall j: nat | j <= |line|
      ensures MatchStartsAt(line, j) <==> MatchPrefix(line[j..]).Some?
    {
      StartsAtIff(line, j);
    }
    if i :| FirstMatchFrom(line, 0) == Some(i) {
      assert MatchStartsAt(line, i);
    }
  }

  // ---------------------------------------------------------------------
  // parse_logs

  /** The event one line of the file contributes, if any: the line is
      cleaned, skipped when that leaves nothing, and searched otherwise. */
  function LineEvent(raw: string): Option<LogEvent>
  {
    var line := CleanLine(raw);
    if line == [] then None else Search(line)
  }

  /** A line that cleans to nothing contributes no event. */
  lemma BlankLineSkipped(raw: string)
    requires CleanLine(raw) == []
    ensures LineEvent(raw) == None
  {
  }

  /** A line contributes `ev` exactly when `ev` is the earliest match in
      the cleaned line. */
  lemma LineEventSome(raw: string, ev: LogEvent)
    ensures LineEvent(raw) == Some(ev) <==> exists i: nat :: EarliestMatch(CleanLine(raw), i, ev)
  {
    var line := CleanLine(raw);
    SearchSome(line, ev);
  }

  /** The line terminator the file iterator leaves on a line changes
      nothing. */
  lemma LineEventNewline(raw: string)
    ensures LineEvent(raw + "\n") == LineEvent(raw)
  {
    RemoveCsiNewline(raw);
    StripNewline(RemoveCsi(raw));
  }

  /** Colour-code removal passes a trailing newline through: no control
      sequence contains one. */
  lemma {:induction false} RemoveCsiNewline(s: string)
    ensures RemoveCsi(s + "\n") == RemoveCsi(s) + "\n"
    decreases |s|
  {
    var t := s + "\n";
    if s == [] {
      assert CsiLength(t) == None;
      assert t[1..] == [];
    } else {
      match CsiLength(s)
      case Some(k) =>
        CsiNewlineSome(s, k);
        assert t[k..] == s[k..] + "\n";
        RemoveCsiNewline(s[k..]);
      case None =>
        CsiNewlineNone(s);
        assert t[1..] == s[1..] + "\n";
        RemoveCsiNewline(s[1..]);
    }
  }

  /** A control sequence at the start stays the one found when a newline
      is appended. */
  lemma CsiNewlineSome(s: string, k: nat)
    requires CsiLength(s) == Some(k)
    ensures CsiLength(s + "\n") == Some(k)
  {
    var t := s + "\n";
    assert t[..k] == s[..k];
  }

  /** No control sequence at the start of a non-empty line appears when a
      newline is appended. */
  lemma CsiNewlineNone(s: string)
    requires s != [] && CsiLength(s).None?
    ensures CsiLength(s + "\n").None?
  {
    var t := s + "\n";
    forall k | 0 <= k <= |t| ensures !IsCsi(t[..k]) {
      if k <= |s| {
        assert t[..k] == s[..k];
      } else {
        assert t[..k][k - 1] == '\n';
      }
    }
  }

  /** What each line contributes, position by position. */
  function LineEvents(lines: seq<string>): seq<Option<LogEvent>>
  {
    Map(LineEvent, lines)
  }

  /** The events of a sequence of lines, in order: `parse_logs` as a
      function of the lines the file yields. */
  function ParsedEvents(lines: seq<string>): seq<LogEvent>
  {
    Somes(LineEvents(lines))
  }

  /** The indices of the lines that contribute an event, in order. */
  function Sources(lines: seq<string>): seq<nat>
  {
    SomeIndices(LineEvents(lines))
  }

  /** `parse_logs` over the lines of a file. */
  method ParseLogs(lines: seq<string>) returns (parsed: seq<LogEvent>)
    ensures parsed == ParsedEvents(lines)
  {
    parsed := [];
    for n := 0 to |lines|
      invariant parsed == ParsedEvents(lines[..n])
    {
      MapPrefixSnoc(LineEvent, lines, n);
      SomesSnoc(LineEvents(lines[..n]), LineEvent(lines[n]));
      var line := CleanLine(lines[n]);
      if line == [] {
        continue;
      }
      var m := Search(line);
      if m.None? {
        continue;
      }
      parsed := parsed + [m.value];
    }
    assert lines[..|lines|] == lines;
  }

  /** At most one event per line, each from the line `Sources` names, in
      the order of the lines, and every line that yields an event is
      among the sources. */
  lemma ParsedEventsSources(lines: seq<string>)
    ensures var evs, src := ParsedEvents(lines), Sources(lines);
      && |evs| == |src| <= |lines|
      && (forall k, l :: 0 <= k < l < |src| ==> src[k] < src[l])
      && (forall k :: 0 <= k < |src| ==> src[k] < |lines| && LineEvent(lines[src[k]]) == Some(evs[k]))
      && (forall i :: 0 <= i < |lines| && LineEvent(lines[i]).Some? ==> i in src)
  {
    SomesAtIndices(LineEvents(lines));
  }

  /** Every event satisfies the pattern's field conditions: a timestamp
      of the right shape, a non-empty component without ']' and a
      non-empty message without a newline. */
  lemma ParsedEventsWellFormed(lines: seq<string>, k: nat)
    requires k < |ParsedEvents(lines)|
    ensures var ev := ParsedEvents(lines)[k];
      && IsTimestamp(ev.timestamp)
      && ev.component != [] && ']' !in ev.component
      && ev.message != [] && '\n' !in ev.message
  {
    ParsedEventsSources(lines);
    var src := Sources(lines);
    var ev := ParsedEvents(lines)[k];
    LineEventSome(lines[src[k]], ev);
  }
}
