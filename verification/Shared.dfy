/** What several modules share. */
module Shared {
  const MS_PER_DAY := 24 * 60 * 60 * 1000

  predicate NoRepeats<T(==)>(xs: seq<T>) {
    forall i, j :: 0 <= i < j < |xs| ==> xs[i] != xs[j]
  }

  lemma Assoc<T>(a: seq<T>, b: seq<T>, c: seq<T>)
    ensures a + b + c == a + (b + c)
  {
  }

  function Filter<T(!new)>(xs: seq<T>, p: T -> bool): (r: seq<T>)
    ensures forall x :: x in r <==> x in xs && p(x)
  {
    if xs == [] then [] else (if p(xs[0]) then [xs[0]] else []) + Filter(xs[1..], p)
  }

  predicate Increasing(at: seq<nat>) {
    forall i, j :: 0 <= i < j < |at| ==> at[i] < at[j]
  }

  ghost predicate StandsAt<T>(picked: seq<T>, xs: seq<T>, at: seq<nat>) {
    |at| == |picked| && forall i :: 0 <= i < |at| ==> at[i] < |xs| && picked[i] == xs[at[i]]
  }

  ghost predicate Covers<T>(xs: seq<T>, wanted: T -> bool, at: seq<nat>) {
    forall k {:trigger k in at} :: 0 <= k < |xs| ==> (k in at <==> wanted(xs[k]))
  }

  /** `picked` are the elements of `xs` that are wanted, in their order and as often; `at` is
      where they stand. */
  ghost predicate PicksAt<T>(picked: seq<T>, xs: seq<T>, wanted: T -> bool, at: seq<nat>) {
    Increasing(at) && StandsAt(picked, xs, at) && Covers(xs, wanted, at)
  }

  ghost predicate Picks<T(!new)>(picked: seq<T>, xs: seq<T>, wanted: T -> bool) {
    exists at :: PicksAt(picked, xs, wanted, at)
  }

  function Shifted(at: seq<nat>): (r: seq<nat>)
    ensures |r| == |at| && forall i :: 0 <= i < |at| ==> r[i] == at[i] + 1
  {
    seq(|at|, i requires 0 <= i < |at| => at[i] + 1)
  }

  lemma ShiftedHas(at: seq<nat>, k: nat)
    ensures k in Shifted(at) <==> k > 0 && k - 1 in at
  {
    if k > 0 && k - 1 in at {
      var i :| 0 <= i < |at| && at[i] == k - 1;
      assert Shifted(at)[i] == k;
    }
  }

  lemma ShiftedStands<T>(picked: seq<T>, xs: seq<T>, at: seq<nat>)
    requires xs != [] && StandsAt(picked, xs[1..], at)
    ensures StandsAt(picked, xs, Shifted(at))
    ensures StandsAt([xs[0]] + picked, xs, [0] + Shifted(at))
  {
    assert forall i :: 0 <= i < |at| ==> xs[1..][at[i]] == xs[at[i] + 1];
  }

  lemma ShiftedCovers<T>(xs: seq<T>, wanted: T -> bool, at: seq<nat>)
    requires xs != [] && Covers(xs[1..], wanted, at)
    ensures wanted(xs[0]) ==> Covers(xs, wanted, [0] + Shifted(at))
    ensures !wanted(xs[0]) ==> Covers(xs, wanted, Shifted(at))
  {
    forall k: nat | k < |xs|
      ensures k in Shifted(at) <==> k > 0 && wanted(xs[k])
      ensures k in [0] + Shifted(at) <==> k == 0 || wanted(xs[k])
    {
      ShiftedHas(at, k);
      hide Shifted;
      if k > 0 {
        assert (k - 1 in at) <==> wanted(xs[1..][k - 1]);
      }
    }
  }

  lemma ShiftedIncreases(at: seq<nat>)
    requires Increasing(at)
    ensures Increasing(Shifted(at)) && Increasing([0] + Shifted(at))
  {
  }

  lemma PicksOneMore<T>(picked: seq<T>, xs: seq<T>, wanted: T -> bool, at: seq<nat>)
    requires xs != [] && PicksAt(picked, xs[1..], wanted, at)
    ensures wanted(xs[0]) ==> PicksAt([xs[0]] + picked, xs, wanted, [0] + Shifted(at))
    ensures !wanted(xs[0]) ==> PicksAt(picked, xs, wanted, Shifted(at))
  {
    hide Increasing, StandsAt, Covers, Shifted;
    ShiftedIncreases(at);
    ShiftedStands(picked, xs, at);
    ShiftedCovers(xs, wanted, at);
  }

  lemma {:induction false} FilterPicks<T(!new)>(xs: seq<T>, wanted: T -> bool) returns (at: seq<nat>)
    ensures PicksAt(Filter(xs, wanted), xs, wanted, at)
  {
    if xs == [] {
      at := [];
    } else {
      hide PicksAt, Shifted;
      var rest := FilterPicks(xs[1..], wanted);
      at := if wanted(xs[0]) then [0] + Shifted(rest) else Shifted(rest);
      PicksOneMore(Filter(xs[1..], wanted), xs, wanted, rest);
      assert [] + Filter(xs[1..], wanted) == Filter(xs[1..], wanted);
    }
  }
}
