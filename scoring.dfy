/** The scoring law behind the leaderboard: what one activity adds to a
    user's stats, and the stats of a whole activity history. The leaderboard
    handler recomputes stats by this fold; the activities handler adds one
    activity's share to the stored row. */
module Scoring {
  import opened Base
  import opened Records

  /** The stats of a fresh leaderboard row. */
  const Zero: Stats := Stats(0, 0.0, 0.0, 0)

  /** `metadata.treeCount || 1`: no metadata, no count and a count of 0 all
      count as one tree. */
  function TreeIncrement(m: Option<Metadata>): (n: int)
    ensures n != 0
    ensures m.Some? && m.value.treeCount.Some? && m.value.treeCount.value != 0 ==> n == m.value.treeCount.value
    ensures !(m.Some? && m.value.treeCount.Some? && m.value.treeCount.value != 0) ==> n == 1
  {
    if m.Some? && m.value.treeCount.Some? && m.value.treeCount.value != 0 then m.value.treeCount.value else 1
  }

  /** `metadata.weight || 1`, the same default for recycled weight. */
  function WeightIncrement(m: Option<Metadata>): (w: real)
    ensures w != 0.0
    ensures m.Some? && m.value.weight.Some? && m.value.weight.value != 0.0 ==> w == m.value.weight.value
    ensures !(m.Some? && m.value.weight.Some? && m.value.weight.value != 0.0) ==> w == 1.0
  {
    if m.Some? && m.value.weight.Some? && m.value.weight.value != 0.0 then m.value.weight.value else 1.0
  }

  /** The body of the recomputation loop: the share of one activity. */
  function Step(s: Stats, a: Activity): (t: Stats)
    ensures t.totalCarbonOffset == s.totalCarbonOffset + a.carbonOffset
    ensures t.impactScore == s.impactScore + Round(a.carbonOffset * 10.0)
    ensures t.treesPlanted == s.treesPlanted + if a.kind == TREE_PLANTING then TreeIncrement(a.metadata) else 0
    ensures t.plasticRecycled == s.plasticRecycled + if a.kind == PLASTIC_RECYCLING then WeightIncrement(a.metadata) else 0.0
  {
    var counted := s.(totalCarbonOffset := s.totalCarbonOffset + a.carbonOffset,
                      impactScore := s.impactScore + Round(a.carbonOffset * 10.0));
    if a.kind == TREE_PLANTING then
      counted.(treesPlanted := counted.treesPlanted + TreeIncrement(a.metadata))
    else if a.kind == PLASTIC_RECYCLING then
      counted.(plasticRecycled := counted.plasticRecycled + WeightIncrement(a.metadata))
    else
      counted
  }

  /** The stats of an activity history: the loop run from zero over every
      activity, whatever its verification status. */
  function StatsOf(acts: seq<Activity>): Stats {
    if acts == [] then Zero else Step(StatsOf(acts[..|acts| - 1]), acts[|acts| - 1])
  }

  /** The `forEach` over the user's activities that fills `stats`. */
  method ComputeStats(acts: seq<Activity>) returns (stats: Stats)
    ensures stats == StatsOf(acts)
  {
    stats := Zero;
    var i := 0;
    while i < |acts|
      invariant 0 <= i <= |acts|
      invariant stats == StatsOf(acts[..i])
    {
      assert acts[..i + 1][..i] == acts[..i];
      stats := Step(stats, acts[i]);
      i := i + 1;
    }
    assert acts[..|acts|] == acts;
  }

  /** Appending an activity to a history applies one more step. */
  lemma StatsOfSnoc(xs: seq<Activity>, a: Activity)
    ensures StatsOf(xs + [a]) == Step(StatsOf(xs), a)
  {
  }

  /** Column-wise sum of two rows of stats. */
  function Add(s: Stats, t: Stats): Stats {
    Stats(s.treesPlanted + t.treesPlanted, s.plasticRecycled + t.plasticRecycled,
          s.totalCarbonOffset + t.totalCarbonOffset, s.impactScore + t.impactScore)
  }

  lemma StepAdds(s: Stats, a: Activity)
    ensures Step(s, a) == Add(s, Step(Zero, a))
  {
  }

  /** The stats of two histories put together are the sum of their stats. */
  lemma {:induction false} StatsOfConcat(xs: seq<Activity>, ys: seq<Activity>)
    ensures StatsOf(xs + ys) == Add(StatsOf(xs), StatsOf(ys))
    decreases |ys|
  {
    if ys == [] {
      assert xs + ys == xs;
    } else {
      var init, last := ys[..|ys| - 1], ys[|ys| - 1];
      assert (xs + ys)[..|xs + ys| - 1] == xs + init;
      assert (xs + ys)[|xs + ys| - 1] == last;
      StatsOfConcat(xs, init);
      StepAdds(StatsOf(xs + init), last);
      StepAdds(StatsOf(init), last);
    }
  }

  /** An activity's share may be added wherever it sits in the history. */
  lemma StatsOfInsert(before: seq<Activity>, x: Activity, after: seq<Activity>)
    ensures StatsOf(before + [x] + after) == Add(StatsOf(before + after), Step(Zero, x))
  {
    StatsOfConcat(before + [x], after);
    StatsOfConcat(before, [x]);
    StatsOfConcat(before, after);
    assert [x][..0] == [];
    StepAdds(Zero, x);
  }

  lemma RemoveAt(ys: seq<Activity>, k: nat)
    requires k < |ys|
    ensures ys == ys[..k] + [ys[k]] + ys[k + 1..]
    ensures multiset(ys[..k] + ys[k + 1..]) == multiset(ys) - multiset{ys[k]}
  {
  }

  /** The order in which the store returns a user's activities does not
      matter: any permutation of the history gives the same stats. */
  lemma {:induction false} StatsOfPermutation(xs: seq<Activity>, ys: seq<Activity>)
    requires multiset(xs) == multiset(ys)
    ensures StatsOf(xs) == StatsOf(ys)
    decreases |xs|
  {
    if xs == [] {
      assert |ys| == |multiset(ys)| == 0;
    } else {
      var init, last := xs[..|xs| - 1], xs[|xs| - 1];
      assert xs == init + [last];
      assert multiset(init) == multiset(xs) - multiset{last};
      assert last in multiset(ys);
      var k :| 0 <= k < |ys| && ys[k] == last;
      RemoveAt(ys, k);
      StatsOfPermutation(init, ys[..k] + ys[k + 1..]);
      StatsOfInsert(ys[..k], last, ys[k + 1..]);
      StepAdds(StatsOf(init), last);
    }
  }

  /** Rounding happens per activity, so the impact score stays within half a
      point per activity of ten times the total offset. */
  lemma {:induction false} ScoreTracksOffset(acts: seq<Activity>)
    ensures 10.0 * StatsOf(acts).totalCarbonOffset - (|acts| as real) / 2.0
            <= StatsOf(acts).impactScore as real
            <= 10.0 * StatsOf(acts).totalCarbonOffset + (|acts| as real) / 2.0
  {
    if acts != [] {
      ScoreTracksOffset(acts[..|acts| - 1]);
    }
  }

  /** Rounding per activity is not rounding the total: two activities of
      0.05 score one point each, while ten times their total rounds to 1. */
  lemma PerActivityRoundingDiffers()
    ensures var a := Activity(0, 0, "RIDE", None, 0.05, None, PENDING);
            StatsOf([a, a]).impactScore == 2 && Round(StatsOf([a, a]).totalCarbonOffset * 10.0) == 1
  {
    var a := Activity(0, 0, "RIDE", None, 0.05, None, PENDING);
    assert [a, a][..1] == [a];
    assert [a][..0] == [];
    assert Round(0.05 * 10.0) == 1;
    assert StatsOf([a]) == Stats(0, 0.0, 0.05, 1);
    assert StatsOf([a, a]) == Stats(0, 0.0, 0.1, 2);
    assert Round(0.1 * 10.0) == 1;
  }

  /** Only tree-planting activities add trees and only recycling activities
      add recycled weight. */
  lemma {:induction false} CountersFollowKind(acts: seq<Activity>)
    ensures (forall i :: 0 <= i < |acts| ==> acts[i].kind != TREE_PLANTING) ==> StatsOf(acts).treesPlanted == 0
    ensures (forall i :: 0 <= i < |acts| ==> acts[i].kind != PLASTIC_RECYCLING) ==> StatsOf(acts).plasticRecycled == 0.0
  {
    if acts != [] {
      var init := acts[..|acts| - 1];
      CountersFollowKind(init);
      assert forall i :: 0 <= i < |init| ==> init[i] == acts[i];
    }
  }
}
