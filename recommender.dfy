/** The ranking step of the recommender (recommender.py, `get_profile_recommendations`):
    rows are ranked by their similarity to the user's profile, the best unrated rows are
    collected, one random unrated activity may be mixed in, and the list is shuffled.
    The similarity scores (one per feature row) and the random draws are inputs. */
module Recommender {
  import opened Util
  import opened Ranking
  import opened Activities
  import opened Features

  /** The outcome of the random calls: `draw` is `random.random()`, `choice` selects the
      element `choice % len` in `random.choice`, and `shuffle[k]` is the draw of the k-th
      swap step of `random.shuffle`. */
  datatype Randomness = Randomness(draw: real, choice: nat, shuffle: seq<nat>)

  function Range(n: nat): (r: seq<nat>)
    ensures |r| == n && forall i :: 0 <= i < n ==> r[i] == i
  {
    seq(n, i requires 0 <= i < n => i)
  }

  function ScoreOf(scores: seq<real>): nat -> real
  {
    (i: nat) => if i < |scores| then scores[i] else 0.0
  }

  /** The row positions by descending score; equal scores keep row order (Python's sort is
      stable, also with `reverse=True`). */
  function RankedPositions(scores: seq<real>): (r: seq<nat>)
    ensures SortedDesc(r, ScoreOf(scores))
    ensures multiset(r) == multiset(Range(|scores|))
    ensures |r| == |scores|
  {
    SortDesc(Range(|scores|), ScoreOf(scores))
  }

  /** A row that may be recommended: it exists, its ID is not -1 and it is not rated. */
  function Eligible(t: seq<Activity>, rated: set<int>): nat -> bool
  {
    (i: nat) => i < |t| && t[i].id != -1 && t[i].id !in rated
  }

  /** The IDs of the rows at `positions`. */
  function IdsAt(positions: seq<nat>, t: seq<Activity>): (r: seq<int>)
    ensures |r| == |positions|
    ensures forall k :: 0 <= k < |positions| && positions[k] < |t| ==> r[k] == t[positions[k]].id
  {
    Map(positions, (i: nat) => if i < |t| then t[i].id else -1)
  }

  /** The position of the first entry of `order` that is not a row of the table (where the
      source's `iloc` raises), or `|order|`. */
  function FirstOutOfRange(order: seq<nat>, size: nat): (p: nat)
    ensures p <= |order|
    ensures forall j :: 0 <= j < p ==> order[j] < size
    ensures p < |order| ==> order[p] >= size
  {
    if order == [] then 0
    else if order[0] >= size then 0
    else 1 + FirstOutOfRange(order[1..], size)
  }

  /** The positions the walk collects, and whether it ended in the `iloc` error. */
  datatype Walk = Walk(picked: seq<nat>, failed: bool)

  /** Walks `order`, collecting eligible rows until there are `n`; reaching a position that
      is not a row first ends the walk with an error. */
  function WalkRanked(order: seq<nat>, t: seq<Activity>, rated: set<int>, n: nat): (w: Walk)
    ensures |w.picked| <= n
  {
    var p := FirstOutOfRange(order, |t|);
    var e := Filter<nat>(order[..p], Eligible(t, rated));
    if |e| >= n then Walk(e[..n], false)
    else if p == |order| then Walk(e, false)
    else Walk(e, true)
  }

  /** The collected rows are the best ones: every eligible row that was passed over has a
      score no higher than any collected row, and the collected rows come in descending
      score order. */
  lemma WalkTakesTopScores(scores: seq<real>, t: seq<Activity>, rated: set<int>, n: nat, q: nat)
    requires |scores| <= |t|
    requires q < |scores| && Eligible(t, rated)(q)
    ensures !WalkRanked(RankedPositions(scores), t, rated, n).failed
    ensures SortedDesc(WalkRanked(RankedPositions(scores), t, rated, n).picked, ScoreOf(scores))
    ensures q !in WalkRanked(RankedPositions(scores), t, rated, n).picked ==>
      |WalkRanked(RankedPositions(scores), t, rated, n).picked| == n
      && forall p :: p in WalkRanked(RankedPositions(scores), t, rated, n).picked ==> p < |scores| && scores[p] >= scores[q]
  {
    var order := RankedPositions(scores);
    var key := ScoreOf(scores);
    var e := Filter<nat>(order, Eligible(t, rated));
    RankedWalkNeverFails(scores, t, rated, n);
    FilterKeepsSorted(order, Eligible(t, rated), key);
    var w := WalkRanked(order, t, rated, n);
    if |e| >= n {
      SortedDescPrefix(e, key, n);
    }
    if q !in w.picked {
      assert q in order by {
        assert Range(|scores|)[q] == q;
        assert q in multiset(order);
      }
      assert q in e;
      var k :| 0 <= k < |e| && e[k] == q;
      assert k >= n;
      assert w.picked == e[..n];
      forall p | p in w.picked ensures p < |scores| && scores[p] >= scores[q] {
        assert p in e;
        RankedInRange(scores, p);
        PrefixDominates<nat>(e, key, n, p, q);
      }
    }
  }

  /** With one score per row at most, every ranked position is a row: the walk never
      fails and collects the first `n` eligible positions in ranked order. */
  lemma RankedWalkNeverFails(scores: seq<real>, t: seq<Activity>, rated: set<int>, n: nat)
    requires |scores| <= |t|
    ensures var order := RankedPositions(scores);
      var e := Filter<nat>(order, Eligible(t, rated));
      WalkRanked(order, t, rated, n) == (if |e| >= n then Walk(e[..n], false) else Walk(e, false))
  {
    var order := RankedPositions(scores);
    forall j | 0 <= j < |order| ensures order[j] < |t| {
      assert order[j] in multiset(Range(|scores|));
    }
    FirstOutOfRangeOfRows(order, |t|);
    assert order[..|order|] == order;
  }

  lemma RankedInRange(scores: seq<real>, p: nat)
    requires p in RankedPositions(scores)
    ensures p < |scores|
  {
    assert p in multiset(Range(|scores|));
  }

  lemma {:induction false} FirstOutOfRangeOfRows(order: seq<nat>, size: nat)
    requires forall j :: 0 <= j < |order| ==> order[j] < size
    ensures FirstOutOfRange(order, size) == |order|
  {
    if order != [] {
      FirstOutOfRangeOfRows(order[1..], size);
    }
  }

  lemma {:induction false} FilterKeepsSorted(s: seq<nat>, p: nat -> bool, key: nat -> real)
    requires SortedDesc(s, key)
    ensures SortedDesc(Filter(s, p), key)
  {
    if s != [] {
      FilterKeepsSorted(s[1..], p, key);
      if p(s[0]) {
        var r := Filter(s, p);
        assert r == [s[0]] + Filter(s[1..], p);
        forall j | 1 <= j < |r| ensures key(r[0]) >= key(r[j]) {
          assert r[j] in s[1..];
        }
      }
    }
  }

  /** The IDs `random.choice` picks from: the distinct IDs of the table that are neither
      rated nor -1. */
  function UnratedIds(t: seq<Activity>, rated: set<int>): (r: seq<int>)
    ensures NoDuplicates(r)
    ensures forall id :: id in r <==> id in Ids(t) && id !in rated && id != -1
  {
    var u := Unique(Ids(t));
    FilterKeepsNoDuplicates(u, (id: int) => id !in rated && id != -1);
    Filter(u, (id: int) => id !in rated && id != -1)
  }

  /** The exploration step: a randomly chosen unrated ID that is not yet listed is put in
      front when there is room, or replaces the last entry when the list is full. */
  function Explore(recs: seq<int>, t: seq<Activity>, rated: set<int>, n: nat, explore: bool, choice: nat): (r: seq<int>)
    requires 1 <= n && |recs| <= n
  {
    if !explore then recs
    else
      var u := UnratedIds(t, rated);
      if u == [] then recs
      else
        var pick := u[choice % |u|];
        if pick in recs then recs
        else if |recs| < n then [pick] + recs
        else recs[..n - 1] + [pick]
  }

  /** Exploration keeps the list within `n`, free of rated IDs and of -1, and free of
      duplicates, and adds at most one ID, an unrated one. */
  lemma ExploreKeepsInvariants(recs: seq<int>, t: seq<Activity>, rated: set<int>, n: nat, explore: bool, choice: nat)
    requires 1 <= n && |recs| <= n
    requires forall id :: id in recs ==> id !in rated && id != -1
    ensures var r := Explore(recs, t, rated, n, explore, choice);
      |recs| <= |r| <= n
      && (forall id :: id in r ==> id !in rated && id != -1)
      && (forall id :: id in r ==> id in recs || id in UnratedIds(t, rated))
      && (NoDuplicates(recs) ==> NoDuplicates(r))
  {
    if explore && UnratedIds(t, rated) != [] {
      var u := UnratedIds(t, rated);
      var pick := u[choice % |u|];
      assert pick in u;
      assert pick !in rated && pick != -1;
      if pick !in recs {
        var r: seq<int>;
        if |recs| < n {
          r := [pick] + recs;
          PrependKeepsNoDuplicates(pick, recs);
        } else {
          r := recs[..|recs| - 1] + [pick];
          ReplaceLastKeepsNoDuplicates(recs, pick);
        }
        assert Explore(recs, t, rated, n, explore, choice) == r;
        forall id | id in r ensures id !in rated && id != -1 && (id in recs || id in u) {
          assert id == pick || id in recs;
        }
      }
    }
  }

  lemma PrependKeepsNoDuplicates(x: int, s: seq<int>)
    requires x !in s
    ensures NoDuplicates(s) ==> NoDuplicates([x] + s)
    ensures forall y :: y in [x] + s <==> y == x || y in s
  {
    if NoDuplicates(s) {
      var r := [x] + s;
      forall i, j | 0 <= i < j < |r| ensures r[i] != r[j] {
        assert r[j] == s[j - 1];
        if i > 0 {
          assert r[i] == s[i - 1];
        }
      }
    }
  }

  lemma ReplaceLastKeepsNoDuplicates(s: seq<int>, x: int)
    requires s != [] && x !in s
    ensures NoDuplicates(s) ==> NoDuplicates(s[..|s| - 1] + [x])
    ensures forall y :: y in s[..|s| - 1] + [x] ==> y == x || y in s
  {
    var r := s[..|s| - 1] + [x];
    assert forall i :: 0 <= i < |s| - 1 ==> r[i] == s[i];
    if NoDuplicates(s) {
      forall i, j | 0 <= i < j < |r| ensures r[i] != r[j] {
        if j == |s| - 1 {
          assert r[i] in s;
        }
      }
    }
  }

  lemma SwapPermutes(s: seq<int>, i: nat, j: nat)
    requires i < |s| && j < |s|
    ensures multiset(s[i := s[j]][j := s[i]]) == multiset(s)
  {
    var t := s[i := s[j]];
    assert multiset(t) == multiset(s) - multiset{s[i]} + multiset{s[j]};
    assert t[j] == (if i == j then s[j] else s[j]);
  }

  /** CPython's `random.shuffle`: for i from the end down to 1, swap position i with a
      position j <= i drawn at random (`draws` supplies the draws; a missing draw means
      no swap). */
  method Shuffle(s: seq<int>, draws: seq<nat>) returns (r: seq<int>)
    ensures multiset(r) == multiset(s)
    ensures |r| == |s|
  {
    r := s;
    var i := |r| - 1;
    var step := 0;
    while i >= 1
      invariant -1 <= i < |r| || |r| == 0
      invariant |r| == |s|
      invariant multiset(r) == multiset(s)
      decreases i
    {
      var j := if step < |draws| then draws[step] % (i + 1) else i;
      SwapPermutes(r, i, j);
      var x, y := r[i], r[j];
      r := r[i := y][j := x];
      i := i - 1;
      step := step + 1;
    }
  }

  /** `get_profile_recommendations`. It returns [] without a profile or matrix, for a matrix
      without columns, for an empty table, and when the similarity cannot be computed (the
      profile's length differs from the matrix width, or the matrix has no rows). The walk
      error returns what was collected so far, unshuffled. Otherwise the collected IDs go
      through exploration and are shuffled. `n` is at least 1: with 0 the exploration step
      indexes an empty list. */
  method GetProfileRecommendations(profile: Option<seq<real>>, features: Option<Matrix>, t: seq<Activity>,
                                   rated: set<int>, n: nat, explorationRate: real, scores: seq<real>, rnd: Randomness)
    returns (recs: seq<int>)
    requires n >= 1
    requires features.Some? ==> |scores| == |features.value.cells|
    ensures |recs| <= n
    ensures forall id :: id in recs ==> id !in rated && id != -1
    ensures profile.None? || features.None? || features.value.cols == 0 || t == [] ==> recs == []
    ensures profile.Some? && features.Some? && (|profile.value| != features.value.cols || features.value.cells == []) ==> recs == []
    ensures (profile.Some? && features.Some? && features.value.cols != 0 && t != []
             && |profile.value| == features.value.cols && features.value.cells != []) ==>
      var w := WalkRanked(RankedPositions(scores), t, rated, n);
      (w.failed ==> recs == IdsAt(w.picked, t))
      && (!w.failed ==> multiset(recs) == multiset(Explore(IdsAt(w.picked, t), t, rated, n, rnd.draw < explorationRate, rnd.choice)))
  {
    if profile.None? || features.None? || features.value.cols == 0 || t == [] {
      return [];
    }
    if |profile.value| != features.value.cols || features.value.cells == [] {
      return [];
    }
    var order := RankedPositions(scores);
    var failed;
    recs, failed := CollectRanked(order, t, rated, n);
    ghost var w := WalkRanked(order, t, rated, n);
    WalkPicksEligible(order, t, rated, n);
    if failed {
      return;
    }
    var explored := ApplyExploration(recs, t, rated, n, rnd.draw < explorationRate, rnd.choice);
    ExploreKeepsInvariants(recs, t, rated, n, rnd.draw < explorationRate, rnd.choice);
    assert forall id :: id in explored ==> id !in rated && id != -1;
    recs := Shuffle(explored, rnd.shuffle);
    forall id | id in recs ensures id !in rated && id != -1 {
      assert id in multiset(recs);
      assert id in explored;
    }
  }

  /** The exploration step of `get_profile_recommendations`, updating the collected list:
      with probability `explorationRate` an unrated ID goes to the front, or replaces the
      last ID once `n` are collected. */
  method ApplyExploration(recs: seq<int>, t: seq<Activity>, rated: set<int>, n: nat, explore: bool, choice: nat)
    returns (explored: seq<int>)
    requires 1 <= n && |recs| <= n
    ensures explored == Explore(recs, t, rated, n, explore, choice)
  {
    explored := recs;
    if explore {
      var unrated := UnratedIds(t, rated);
      if unrated != [] {
        var pick := unrated[choice % |unrated|];
        if pick !in explored {
          if |explored| < n {
            explored := [pick] + explored;
          } else if |explored| == n {
            explored := explored[..n - 1] + [pick];
          }
        }
      }
    }
  }

  /** The loop of `get_profile_recommendations` over the ranked positions: it stops once
      `n` IDs are collected, skips rows whose ID is -1 or rated, and stops with an error at
      a position that is not a row. */
  method CollectRanked(order: seq<nat>, t: seq<Activity>, rated: set<int>, n: nat)
    returns (recs: seq<int>, failed: bool)
    ensures failed == WalkRanked(order, t, rated, n).failed
    ensures recs == IdsAt(WalkRanked(order, t, rated, n).picked, t)
  {
    recs := [];
    ghost var picked: seq<nat> := [];
    var k := 0;
    while k < |order|
      invariant 0 <= k <= |order|
      invariant forall j :: 0 <= j < k ==> order[j] < |t|
      invariant picked == Filter<nat>(order[..k], Eligible(t, rated))
      invariant recs == IdsAt(picked, t)
      invariant |recs| <= n
    {
      if |recs| >= n {
        break;
      }
      var index := order[k];
      if index >= |t| {
        // `iloc` raises: the error handler returns the IDs collected so far
        WalkFailsAt(order, t, rated, n, k);
        return recs, true;
      }
      CollectStep(order, t, rated, k, picked, recs);
      InRangeStep(order, |t|, k);
      var id := t[index].id;
      if id != -1 && id !in rated {
        recs := recs + [id];
        picked := picked + [index];
      }
      k := k + 1;
    }
    WalkEndsAt(order, t, rated, n, k, picked);
    failed := false;
  }

  lemma InRangeStep(order: seq<nat>, size: nat, k: nat)
    requires k < |order| && order[k] < size
    requires forall j :: 0 <= j < k ==> order[j] < size
    ensures forall j :: 0 <= j < k + 1 ==> order[j] < size
  {
  }

  lemma IdsAtSnoc(positions: seq<nat>, i: nat, t: seq<Activity>)
    requires i < |t|
    ensures IdsAt(positions + [i], t) == IdsAt(positions, t) + [t[i].id]
  {
    var r, l := IdsAt(positions + [i], t), IdsAt(positions, t) + [t[i].id];
    forall j | 0 <= j < |r| ensures r[j] == l[j] {
      if j < |positions| {
        assert (positions + [i])[j] == positions[j];
      }
    }
  }

  /** One step of the loop of `CollectRanked` at a position inside the table. */
  lemma CollectStep(order: seq<nat>, t: seq<Activity>, rated: set<int>, k: nat, picked: seq<nat>, recs: seq<int>)
    requires k < |order| && order[k] < |t|
    requires picked == Filter<nat>(order[..k], Eligible(t, rated)) && recs == IdsAt(picked, t)
    ensures var i := order[k];
      var eligible := t[i].id != -1 && t[i].id !in rated;
      && Filter<nat>(order[..k + 1], Eligible(t, rated)) == picked + (if eligible then [i] else [])
      && IdsAt(picked + (if eligible then [i] else []), t) == recs + (if eligible then [t[i].id] else [])
  {
    var i := order[k];
    assert order[..k + 1] == order[..k] + [i];
    FilterAppend<nat>(order[..k], [i], Eligible(t, rated));
    if t[i].id != -1 && t[i].id !in rated {
      assert Filter<nat>([i], Eligible(t, rated)) == [i];
      IdsAtSnoc(picked, i, t);
    } else {
      assert Filter<nat>([i], Eligible(t, rated)) == [];
      assert picked + [] == picked;
    }
  }

  /** Every collected position is an eligible row, so no collected ID is rated or -1. */
  lemma WalkPicksEligible(order: seq<nat>, t: seq<Activity>, rated: set<int>, n: nat)
    ensures forall id :: id in IdsAt(WalkRanked(order, t, rated, n).picked, t) ==> id !in rated && id != -1
  {
    var w := WalkRanked(order, t, rated, n);
    var p := FirstOutOfRange(order, |t|);
    var e := Filter<nat>(order[..p], Eligible(t, rated));
    assert forall i :: i in w.picked ==> i in e;
    var ids := IdsAt(w.picked, t);
    forall id | id in ids ensures id !in rated && id != -1 {
      var j :| 0 <= j < |ids| && ids[j] == id;
      assert w.picked[j] in e;
    }
  }

  /** The walk stops at an out-of-range position `k` only when it has fewer than `n` rows,
      and then `WalkRanked` reports the error with those rows. */
  lemma WalkFailsAt(order: seq<nat>, t: seq<Activity>, rated: set<int>, n: nat, k: nat)
    requires k < |order| && order[k] >= |t|
    requires forall j :: 0 <= j < k ==> order[j] < |t|
    requires |Filter<nat>(order[..k], Eligible(t, rated))| < n
    ensures WalkRanked(order, t, rated, n) == Walk(Filter<nat>(order[..k], Eligible(t, rated)), true)
  {
    FirstOutOfRangeIs(order, |t|, k);
  }

  lemma {:induction false} FirstOutOfRangeIs(order: seq<nat>, size: nat, k: nat)
    requires k <= |order|
    requires forall j :: 0 <= j < k ==> order[j] < size
    requires k < |order| ==> order[k] >= size
    ensures FirstOutOfRange(order, size) == k
  {
    if order != [] && k > 0 {
      FirstOutOfRangeIs(order[1..], size, k - 1);
    }
  }

  /** When the loop ends normally or breaks with `n` rows, it has collected exactly what
      `WalkRanked` describes. */
  lemma WalkEndsAt(order: seq<nat>, t: seq<Activity>, rated: set<int>, n: nat, k: nat, picked: seq<nat>)
    requires k <= |order|
    requires forall j :: 0 <= j < k ==> order[j] < |t|
    requires picked == Filter<nat>(order[..k], Eligible(t, rated))
    requires |picked| <= n
    requires k < |order| ==> |picked| >= n
    ensures WalkRanked(order, t, rated, n) == Walk(picked, false)
  {
    var p := FirstOutOfRange(order, |t|);
    if k == |order| {
      FirstOutOfRangeIs(order, |t|, k);
      assert order[..k] == order;
    } else {
      assert p >= k;
      assert order[..p] == order[..k] + order[k..p];
      FilterAppend<nat>(order[..k], order[k..p], Eligible(t, rated));
      var e := Filter<nat>(order[..p], Eligible(t, rated));
      assert e[..n] == picked;
    }
  }

  /** When the scores already descend from row to row, ranking them keeps row order: the
      ranked positions are 0, 1, 2, ... (the stable sort moves no row). */
  lemma RankingOfDescendingScores(scores: seq<real>)
    requires forall i, j :: 0 <= i < j < |scores| ==> scores[i] >= scores[j]
    ensures RankedPositions(scores) == Range(|scores|)
  {
    SortDescOfSorted(Range(|scores|), ScoreOf(scores));
  }
}
