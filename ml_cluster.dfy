/** Grouping of unclassified error messages by the cluster label that the
    text clusterer gave each of them. The clusterer itself (TF-IDF vectors
    and k-means) is not modelled: it is a parameter that either raises or
    gives one label per message, each below the number of clusters. */
module MlCluster {
  import opened Wrappers

  /** The messages whose label is `l`, in their input order. */
  function Select(ms: seq<string>, ls: seq<nat>, l: nat): (r: seq<string>)
    requires |ms| == |ls|
  {
    if ms == [] then []
    else
      var init := Select(ms[..|ms| - 1], ls[..|ls| - 1], l);
      if ls[|ls| - 1] == l then init + [ms[|ms| - 1]] else init
  }

  /** One list per label that occurs, holding that label's messages. */
  function Grouped(ms: seq<string>, ls: seq<nat>): map<nat, seq<string>>
    requires |ms| == |ls|
  {
    map l | l in ls :: Select(ms, ls, l)
  }

  /** The contract of the clusterer (TF-IDF vectors, then k-means with
      `n` clusters): when it does not raise, it gives every message one
      label below `n`. */
  predicate LabelsFor(ms: seq<string>, n: nat, ls: seq<nat>) {
    |ls| == |ms| && forall l :: l in ls ==> l < n
  }

  ghost predicate FitContract(fit: (seq<string>, nat) -> Option<seq<nat>>) {
    forall ms, n :: fit(ms, n).Some? ==> LabelsFor(ms, n, fit(ms, n).value)
  }

  /** What `cluster_unknown_errors` returns: no clusters below the
      threshold; otherwise the messages grouped by the labels the
      clusterer gives, or nothing when the clusterer raises. */
  function Clusters(ms: seq<string>, n: nat, fit: (seq<string>, nat) -> Option<seq<nat>>)
    : Option<map<nat, seq<string>>>
    requires FitContract(fit)
  {
    if |ms| < n then Some(map[])
    else match fit(ms, n)
      case None => None
      case Some(ls) => Some(Grouped(ms, ls))
  }

  /** `cluster_unknown_errors`: no clusters when there are fewer messages
      than clusters; otherwise the clusterer labels the messages, and each
      message is appended, in input order, to the list of its label,
      created on first use. `None` stands for an exception raised by the
      clusterer. */
  method ClusterUnknownErrors(messages: seq<string>, nClusters: nat,
                              fit: (seq<string>, nat) -> Option<seq<nat>>)
    returns (clusters: Option<map<nat, seq<string>>>)
    requires FitContract(fit)
    ensures clusters == Clusters(messages, nClusters, fit)
    ensures clusters.Some? ==> forall l :: l in clusters.value ==> l < nClusters
    ensures |messages| >= nClusters && clusters.Some?
            ==> SizeBelow(clusters.value, nClusters) == |messages|
  {
    if |messages| < nClusters {
      return Some(map[]);
    }
    var fitted := fit(messages, nClusters);
    if fitted.None? {
      return None;
    }
    var labels := fitted.value;
    var groups := map[];
    for i := 0 to |messages|
      invariant groups == Grouped(messages[..i], labels[..i])
    {
      GroupedSnoc(messages, labels, i);
      var cluster := labels[i];
      var members := if cluster in groups then groups[cluster] else [];
      groups := groups[cluster := members + [messages[i]]];
    }
    assert messages[..|messages|] == messages && labels[..|labels|] == labels;
    ClusterSizesSum(messages, labels, nClusters);
    return Some(groups);
  }

  /** The keys are exactly the labels that occur, and message `i` sits in
      the list of its own label, after exactly the earlier messages with
      that label. */
  lemma GroupedAt(ms: seq<string>, ls: seq<nat>, i: nat)
    requires |ms| == |ls| && i < |ms|
    ensures Grouped(ms, ls).Keys == set l | l in ls
    ensures var c, k := Grouped(ms, ls)[ls[i]], multiset(ls[..i])[ls[i]];
      k < |c| && c[k] == ms[i]
  {
    SelectAt(ms, ls, i);
  }

  /** One more message extends its own label's list and no other. */
  lemma SelectSnoc(ms: seq<string>, ls: seq<nat>, i: nat, l: nat)
    requires |ms| == |ls| && i < |ms|
    ensures Select(ms[..i + 1], ls[..i + 1], l)
            == if ls[i] == l then Select(ms[..i], ls[..i], l) + [ms[i]] else Select(ms[..i], ls[..i], l)
  {
    assert ms[..i + 1][..i] == ms[..i] && ls[..i + 1][..i] == ls[..i];
  }

  /** The grouping of one more message: the map updated at its label. */
  lemma GroupedSnoc(ms: seq<string>, ls: seq<nat>, i: nat)
    requires |ms| == |ls| && i < |ms|
    ensures var g := Grouped(ms[..i], ls[..i]);
      Grouped(ms[..i + 1], ls[..i + 1])
      == g[ls[i] := (if ls[i] in g then g[ls[i]] else []) + [ms[i]]]
  {
    var g := Grouped(ms[..i], ls[..i]);
    var g' := Grouped(ms[..i + 1], ls[..i + 1]);
    var h := g[ls[i] := (if ls[i] in g then g[ls[i]] else []) + [ms[i]]];
    assert ls[..i + 1] == ls[..i] + [ls[i]];
    assert g'.Keys == h.Keys;
    forall l | l in g'.Keys ensures g'[l] == h[l] {
      SelectSnoc(ms, ls, i, l);
      if l == ls[i] && l !in ls[..i] {
        SelectAbsent(ms[..i], ls[..i], l);
      }
    }
  }

  /** A label that does not occur selects nothing. */
  lemma {:induction false} SelectAbsent(ms: seq<string>, ls: seq<nat>, l: nat)
    requires |ms| == |ls| && l !in ls
    ensures Select(ms, ls, l) == []
  {
    if ms != [] {
      assert forall x :: x in ls[..|ls| - 1] ==> x in ls;
      SelectAbsent(ms[..|ms| - 1], ls[..|ls| - 1], l);
    }
  }

  /** Each cluster holds as many messages as its label occurs: duplicates
      are kept and nothing else is added. */
  lemma {:induction false} SelectLength(ms: seq<string>, ls: seq<nat>, l: nat)
    requires |ms| == |ls|
    ensures |Select(ms, ls, l)| == multiset(ls)[l]
  {
    if ms != [] {
      var n := |ls| - 1;
      assert ls == ls[..n] + [ls[n]];
      SelectLength(ms[..n], ls[..n], l);
    }
  }

  /** Message `i` sits in the list of its own label, after exactly the
      earlier messages with that label: the lists keep the input order. */
  lemma {:induction false} SelectAt(ms: seq<string>, ls: seq<nat>, i: nat)
    requires |ms| == |ls| && i < |ms|
    ensures var k := multiset(ls[..i])[ls[i]];
      k < |Select(ms, ls, ls[i])| && Select(ms, ls, ls[i])[k] == ms[i]
    decreases |ms|
  {
    var n := |ms| - 1;
    var k := multiset(ls[..i])[ls[i]];
    if i == n {
      SelectLength(ms[..n], ls[..n], ls[n]);
      assert ls[..i] == ls[..n];
    } else {
      assert ms[..n][i] == ms[i] && ls[..n][i] == ls[i] && ls[..n][..i] == ls[..i];
      SelectAt(ms[..n], ls[..n], i);
    }
  }

  /** The total size of the lists kept under the labels below `n`. */
  function SizeBelow(c: map<nat, seq<string>>, n: nat): nat
  {
    if n == 0 then 0
    else SizeBelow(c, n - 1) + (if n - 1 in c then |c[n - 1]| else 0)
  }

  /** How many of `ls` are below `n`, counted label by label. */
  function CountBelow(ls: seq<nat>, n: nat): nat
  {
    if n == 0 then 0 else CountBelow(ls, n - 1) + multiset(ls)[n - 1]
  }

  /** When every label is below the number of clusters, the cluster sizes
      add up to the number of messages: every message lands in exactly
      one list. */
  lemma ClusterSizesSum(ms: seq<string>, ls: seq<nat>, n: nat)
    requires |ms| == |ls|
    requires forall x :: x in ls ==> x < n
    ensures SizeBelow(Grouped(ms, ls), n) == |ms|
  {
    SizeBelowGrouped(ms, ls, n);
    CountBelowAll(ls, n);
  }

  lemma {:induction false} SizeBelowGrouped(ms: seq<string>, ls: seq<nat>, n: nat)
    requires |ms| == |ls|
    ensures SizeBelow(Grouped(ms, ls), n) == CountBelow(ls, n)
  {
    if n > 0 {
      SizeBelowGrouped(ms, ls, n - 1);
      SelectLength(ms, ls, n - 1);
    }
  }

  lemma {:induction false} CountBelowAll(ls: seq<nat>, n: nat)
    requires forall x :: x in ls ==> x < n
    ensures CountBelow(ls, n) == |ls|
    decreases |ls|
  {
    if ls != [] {
      var m := |ls| - 1;
      assert ls == ls[..m] + [ls[m]];
      assert forall x :: x in ls[..m] ==> x in ls;
      assert ls[m] in ls;
      CountBelowAll(ls[..m], n);
      CountBelowSnoc(ls[..m], ls[m], n);
    } else {
      CountBelowNone(n);
    }
  }

  lemma {:induction false} CountBelowNone(n: nat)
    ensures CountBelow([], n) == 0
  {
    if n > 0 {
      CountBelowNone(n - 1);
    }
  }

  lemma {:induction false} CountBelowSnoc(ls: seq<nat>, x: nat, n: nat)
    ensures CountBelow(ls + [x], n) == CountBelow(ls, n) + (if x < n then 1 else 0)
  {
    if n > 0 {
      CountBelowSnoc(ls, x, n - 1);
    }
  }
}
