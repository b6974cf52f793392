/** The optional value used for "no match" and "absent" throughout. */
module Wrappers {
  datatype Option<+T> = None | Some(value: T)

  /** The values held by the `Some` elements of `xs`, in order: a
      filter-map that drops every `None`. */
  function Somes<T>(xs: seq<Option<T>>): seq<T>
  {
    if xs == [] then []
    else
      var init := Somes(xs[..|xs| - 1]);
      match xs[|xs| - 1]
      case None => init
      case Some(v) => init + [v]
  }

  /** The positions of the `Some` elements of `xs`, in order. */
  function SomeIndices<T>(xs: seq<Option<T>>): (r: seq<nat>)
    ensures forall k :: 0 <= k < |r| ==> r[k] < |xs|
  {
    if xs == [] then []
    else
      var init := SomeIndices(xs[..|xs| - 1]);
      if xs[|xs| - 1].Some? then init + [|xs| - 1] else init
  }

  /** Each kept value comes from the position SomeIndices gives for it,
      those positions increase, and every `Some` position is kept. */
  lemma SomesAtIndices<T>(xs: seq<Option<T>>)
    ensures var vs, ix := Somes(xs), SomeIndices(xs);
      && |vs| == |ix| <= |xs|
      && (forall k, l :: 0 <= k < l < |ix| ==> ix[k] < ix[l])
      && (forall k :: 0 <= k < |ix| ==> xs[ix[k]] == Some(vs[k]))
      && (forall i :: 0 <= i < |xs| && xs[i].Some? ==> i in ix)
  {
    SomesLength(xs);
    SomeIndicesIncrease(xs);
    SomesValues(xs);
    SomeIndicesComplete(xs);
  }

  lemma {:induction false} SomesLength<T>(xs: seq<Option<T>>)
    ensures |Somes(xs)| == |SomeIndices(xs)| <= |xs|
  {
    if xs != [] {
      SomesLength(xs[..|xs| - 1]);
    }
  }

  lemma {:induction false} SomeIndicesIncrease<T>(xs: seq<Option<T>>)
    ensures forall k, l :: 0 <= k < l < |SomeIndices(xs)| ==> SomeIndices(xs)[k] < SomeIndices(xs)[l]
  {
    if xs != [] {
      var n := |xs| - 1;
      var a := SomeIndices(xs[..n]);
      SomeIndicesIncrease(xs[..n]);
      if xs[n].Some? {
        var ix := a + [n];
        assert SomeIndices(xs) == ix;
        forall k, l | 0 <= k < l < |ix| ensures ix[k] < ix[l] {
          assert ix[k] == a[k] && a[k] < n;
          if l < |a| {
            assert ix[l] == a[l];
          }
        }
      }
    }
  }

  lemma {:induction false} SomesValues<T>(xs: seq<Option<T>>)
    ensures |Somes(xs)| == |SomeIndices(xs)|
    ensures forall k :: 0 <= k < |SomeIndices(xs)| ==> xs[SomeIndices(xs)[k]] == Some(Somes(xs)[k])
  {
    if xs != [] {
      var init := xs[..|xs| - 1];
      SomesValues(init);
      forall k | 0 <= k < |SomeIndices(init)|
        ensures xs[SomeIndices(init)[k]] == init[SomeIndices(init)[k]]
      {
      }
    }
  }

  lemma {:induction false} SomeIndicesComplete<T>(xs: seq<Option<T>>)
    ensures forall i :: 0 <= i < |xs| && xs[i].Some? ==> i in SomeIndices(xs)
  {
    if xs != [] {
      var init := xs[..|xs| - 1];
      SomeIndicesComplete(init);
      forall i | 0 <= i < |init| ensures xs[i] == init[i] {
      }
    }
  }

  /** Appending one element extends the kept values by its value, if any. */
  lemma SomesSnoc<T>(xs: seq<Option<T>>, x: Option<T>)
    ensures Somes(xs + [x]) == if x.Some? then Somes(xs) + [x.value] else Somes(xs)
  {
    assert (xs + [x])[..|xs|] == xs;
  }

  /** `f` applied to each element of `xs`. */
  function Map<A, B>(f: A -> B, xs: seq<A>): (r: seq<B>)
    ensures |r| == |xs| && forall i :: 0 <= i < |xs| ==> r[i] == f(xs[i])
  {
    if xs == [] then [] else Map(f, xs[..|xs| - 1]) + [f(xs[|xs| - 1])]
  }

  /** Mapping one more element of a prefix adds its image at the end. */
  lemma MapPrefixSnoc<A, B>(f: A -> B, xs: seq<A>, n: nat)
    requires n < |xs|
    ensures Map(f, xs[..n + 1]) == Map(f, xs[..n]) + [f(xs[n])]
  {
    assert xs[..n + 1][..n] == xs[..n];
  }

  /** Mapping one more element adds its image at the end. */
  lemma MapSnoc<A, B>(f: A -> B, xs: seq<A>, x: A)
    ensures Map(f, xs + [x]) == Map(f, xs) + [f(x)]
  {
    assert (xs + [x])[..|xs|] == xs;
  }
}
