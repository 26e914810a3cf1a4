/** Choosing search results (`select_results` of ctx.py): a greedy walk over the ranked chunks
    with a quota per file, an overlap rule, a limit and a relative score floor. Scores are
    reals. */
module Selector {
  import Text

  datatype Item = Item(path: string, start: int, end: int, score: real)

  datatype Config = Config(k: int, perFile: int, prefixes: seq<string>, floor: real)

  const OVERLAP_LIMIT: real := 0.72

  function Min(a: int, b: int): int {
    if a <= b then a else b
  }

  function Max(a: int, b: int): int {
    if a >= b then a else b
  }

  /** How many results there can be: one even when none is asked for, as the limit is looked at
      after a result is taken. */
  function Room(c: Config): int {
    Max(c.k, 1)
  }

  /** The share of the shorter chunk that both hold. */
  function OverlapRatio(a: Item, b: Item): real {
    if a.path != b.path then 0.0
    else
      var left, right := Max(a.start, b.start), Min(a.end, b.end);
      if right < left then 0.0
      else
        var shorter := Min(a.end - a.start + 1, b.end - b.start + 1);
        (right - left + 1) as real / Max(shorter, 1) as real
  }

  lemma OverlapSymmetric(a: Item, b: Item)
    ensures OverlapRatio(a, b) == OverlapRatio(b, a)
  {
  }

  /** Between chunks of at least one line the ratio is a share, and it is whole exactly when
      one chunk lies inside the other. */
  lemma OverlapIsShare(a: Item, b: Item)
    requires a.start <= a.end && b.start <= b.end
    ensures 0.0 <= OverlapRatio(a, b) <= 1.0
    ensures OverlapRatio(a, b) == 1.0 <==>
            a.path == b.path && ((a.start <= b.start && b.end <= a.end) || (b.start <= a.start && a.end <= b.end))
  {
    var left, right := Max(a.start, b.start), Min(a.end, b.end);
    if a.path == b.path && left <= right {
      var n, d := right - left + 1, Min(a.end - a.start + 1, b.end - b.start + 1);
      assert 1 <= n <= d;
      Share(n, d);
    }
  }

  lemma Share(n: int, d: int)
    requires 1 <= n <= d
    ensures 0.0 <= n as real / d as real <= 1.0
    ensures n as real / d as real == 1.0 <==> n == d
  {
    var q := n as real / d as real;
    assert q * d as real == n as real;
    if q == 1.0 {
      assert n as real == d as real;
    }
  }

  predicate PathOk(c: Config, path: string) {
    c.prefixes == [] || exists i :: 0 <= i < |c.prefixes| && c.prefixes[i] <= path
  }

  /** How many of the picks are in a file. */
  function InFile(ranked: seq<Item>, picks: seq<nat>, path: string): nat
    requires forall i :: 0 <= i < |picks| ==> picks[i] < |ranked|
  {
    if picks == [] then 0
    else
      InFile(ranked, picks[..|picks| - 1], path) + (if ranked[picks[|picks| - 1]].path == path then 1 else 0)
  }

  predicate OverlapsPick(ranked: seq<Item>, picks: seq<nat>, i: nat)
    requires i < |ranked| && forall j :: 0 <= j < |picks| ==> picks[j] < |ranked|
  {
    exists j :: 0 <= j < |picks| && OverlapRatio(ranked[i], ranked[picks[j]]) >= OVERLAP_LIMIT
  }

  /** The item is passed over: wrong path, saturated file, or too close to a pick. */
  predicate PassedOver(ranked: seq<Item>, c: Config, picks: seq<nat>, i: nat)
    requires i < |ranked| && forall j :: 0 <= j < |picks| ==> picks[j] < |ranked|
  {
    !PathOk(c, ranked[i].path) || InFile(ranked, picks, ranked[i].path) >= c.perFile || OverlapsPick(ranked, picks, i)
  }

  /** Three results are there and the item scores too far below the best. */
  predicate BelowFloor(ranked: seq<Item>, c: Config, picks: seq<nat>, i: nat)
    requires i < |ranked| && forall j :: 0 <= j < |picks| ==> picks[j] < |ranked|
  {
    |picks| >= 3 && c.floor > 0.0 && ranked[i].score < ranked[picks[0]].score * c.floor
  }

  /** The picks among the first n items, and whether the walk has stopped. */
  datatype Walk = Walk(picks: seq<nat>, stopped: bool)

  function Step(ranked: seq<Item>, c: Config, w: Walk, i: nat): Walk
    requires i < |ranked| && forall j :: 0 <= j < |w.picks| ==> w.picks[j] < |ranked|
  {
    if w.stopped || PassedOver(ranked, c, w.picks, i) then w
    else if BelowFloor(ranked, c, w.picks, i) then w.(stopped := true)
    else Walk(w.picks + [i], |w.picks| + 1 >= c.k)
  }

  function WalkTo(ranked: seq<Item>, c: Config, n: nat): (w: Walk)
    requires n <= |ranked|
    ensures forall j :: 0 <= j < |w.picks| ==> w.picks[j] < n
    ensures forall j, k :: 0 <= j < k < |w.picks| ==> w.picks[j] < w.picks[k]
  {
    if n == 0 then Walk([], false) else Step(ranked, c, WalkTo(ranked, c, n - 1), n - 1)
  }

  function ItemsAt(ranked: seq<Item>, picks: seq<nat>): (r: seq<Item>)
    requires forall j :: 0 <= j < |picks| ==> picks[j] < |ranked|
    ensures |r| == |picks| && forall j :: 0 <= j < |picks| ==> r[j] == ranked[picks[j]]
  {
    seq(|picks|, j requires 0 <= j < |picks| => ranked[picks[j]])
  }

  /** The three ways one turn of the loop can go. */
  lemma TurnOf(ranked: seq<Item>, c: Config, picks: seq<nat>, i: nat)
    requires i < |ranked| && WalkTo(ranked, c, i) == Walk(picks, false)
    ensures WalkTo(ranked, c, i + 1) ==
            if PassedOver(ranked, c, picks, i) then Walk(picks, false)
            else if BelowFloor(ranked, c, picks, i) then Walk(picks, true)
            else Walk(picks + [i], |picks| + 1 >= c.k)
  {
    hide PassedOver, BelowFloor;
  }

  lemma OverlapsBy(ranked: seq<Item>, picks: seq<nat>, i: nat)
    requires i < |ranked| && forall j :: 0 <= j < |picks| ==> picks[j] < |ranked|
    ensures OverlapsPick(ranked, picks, i) ==
            exists j :: 0 <= j < |picks| && OverlapRatio(ranked[i], ItemsAt(ranked, picks)[j]) >= OVERLAP_LIMIT
  {
    hide OverlapRatio;
    var items := ItemsAt(ranked, picks);
    if j :| 0 <= j < |picks| && OverlapRatio(ranked[i], ranked[picks[j]]) >= OVERLAP_LIMIT {
      assert OverlapRatio(ranked[i], items[j]) >= OVERLAP_LIMIT;
    }
    if j :| 0 <= j < |picks| && OverlapRatio(ranked[i], items[j]) >= OVERLAP_LIMIT {
      assert OverlapRatio(ranked[i], ranked[picks[j]]) >= OVERLAP_LIMIT;
    }
  }

  lemma PassedOverBy(ranked: seq<Item>, c: Config, picks: seq<nat>, i: nat, seen: nat, overlaps: bool)
    requires i < |ranked| && forall j :: 0 <= j < |picks| ==> picks[j] < |ranked|
    requires seen == InFile(ranked, picks, ranked[i].path)
    requires overlaps == exists j :: 0 <= j < |picks| && OverlapRatio(ranked[i], ItemsAt(ranked, picks)[j]) >= OVERLAP_LIMIT
    ensures PassedOver(ranked, c, picks, i) == !(PathOk(c, ranked[i].path) && seen < c.perFile && !overlaps)
  {
    hide OverlapRatio, PathOk, InFile, OverlapsPick;
    OverlapsBy(ranked, picks, i);
  }

  /** `select_results`; `picks` are the places of the results in the ranking. */
  method SelectResults(ranked: seq<Item>, c: Config) returns (picked: seq<Item>, picks: seq<nat>)
    ensures picks == WalkTo(ranked, c, |ranked|).picks
    ensures picked == ItemsAt(ranked, picks)
  {
    hide OverlapRatio, PathOk, WalkTo, PassedOver, InFile, ItemsAt;
    picked, picks := [], [];
    var seenPerFile: map<string, nat> := map[];
    var hasBest, best := false, 0.0;
    NothingPicked(ranked, c);
    for i := 0 to |ranked|
      invariant WalkTo(ranked, c, i) == Walk(picks, false)
      invariant picked == ItemsAt(ranked, picks)
      invariant forall p :: (if p in seenPerFile then seenPerFile[p] else 0) == InFile(ranked, picks, p)
      invariant hasBest == (picks != []) && (hasBest ==> best == ranked[picks[0]].score)
    {
      var item := ranked[i];
      var overlaps := OverlapsAny(item, picked);
      var seen := if item.path in seenPerFile then seenPerFile[item.path] else 0;
      PassedOverBy(ranked, c, picks, i, seen, overlaps);
      TurnOf(ranked, c, picks, i);
      if PathOk(c, item.path) && seen < c.perFile && !overlaps {
        if !hasBest {
          hasBest, best := true, item.score;
        } else if |picked| >= 3 && c.floor > 0.0 && item.score < best * c.floor {
          StaysStopped(ranked, c, i + 1, |ranked|);
          return;
        }
        AddPick(ranked, picks, i);
        picked := picked + [item];
        picks := picks + [i];
        seenPerFile := seenPerFile[item.path := seen + 1];
        if |picked| >= c.k {
          StaysStopped(ranked, c, i + 1, |ranked|);
          return;
        }
      }
    }
  }

  lemma NothingPicked(ranked: seq<Item>, c: Config)
    ensures WalkTo(ranked, c, 0) == Walk([], false) && forall p :: InFile(ranked, [], p) == 0
    ensures ItemsAt(ranked, []) == []
  {
  }

  method OverlapsAny(item: Item, picked: seq<Item>) returns (b: bool)
    ensures b == exists j :: 0 <= j < |picked| && OverlapRatio(item, picked[j]) >= OVERLAP_LIMIT
  {
    for j := 0 to |picked|
      invariant forall k :: 0 <= k < j ==> OverlapRatio(item, picked[k]) < OVERLAP_LIMIT
    {
      if OverlapRatio(item, picked[j]) >= OVERLAP_LIMIT {
        return true;
      }
    }
    return false;
  }

  lemma AddPick(ranked: seq<Item>, picks: seq<nat>, i: nat)
    requires i < |ranked| && forall j :: 0 <= j < |picks| ==> picks[j] < |ranked|
    ensures forall p :: InFile(ranked, picks + [i], p) == InFile(ranked, picks, p) + (if ranked[i].path == p then 1 else 0)
    ensures ItemsAt(ranked, picks + [i]) == ItemsAt(ranked, picks) + [ranked[i]]
  {
    assert (picks + [i])[..|picks|] == picks;
  }

  lemma {:induction false} StaysStopped(ranked: seq<Item>, c: Config, m: nat, n: nat)
    requires m <= n <= |ranked| && WalkTo(ranked, c, m).stopped
    ensures WalkTo(ranked, c, n) == WalkTo(ranked, c, m)
    decreases n - m
  {
    if m < n {
      StaysStopped(ranked, c, m, n - 1);
    }
  }

  // ----- the declarative specification

  /** The picks before the place i. */
  function Before(picks: seq<nat>, i: nat): (r: seq<nat>)
    ensures forall j :: 0 <= j < |r| ==> r[j] < i && r[j] in picks
  {
    if picks == [] then []
    else
      var last := picks[|picks| - 1];
      Before(picks[..|picks| - 1], i) + (if last < i then [last] else [])
  }

  /** The item may be picked after the picks before it. */
  predicate Eligible(ranked: seq<Item>, c: Config, earlier: seq<nat>, i: nat)
    requires i < |ranked| && forall j :: 0 <= j < |earlier| ==> earlier[j] < |ranked|
  {
    |earlier| < Room(c) && !PassedOver(ranked, c, earlier, i) && !BelowFloor(ranked, c, earlier, i)
  }

  predicate Descending(ranked: seq<Item>) {
    forall i, j :: 0 <= i <= j < |ranked| ==> ranked[j].score <= ranked[i].score
  }

  lemma {:induction false} BeforeWalk(ranked: seq<Item>, c: Config, m: nat, n: nat)
    requires m <= n <= |ranked|
    ensures Before(WalkTo(ranked, c, n).picks, m) == WalkTo(ranked, c, m).picks
    decreases n
  {
    hide PassedOver, BelowFloor;
    var w := WalkTo(ranked, c, n);
    if m == n {
      BeforeAll(w.picks, n);
    } else {
      BeforeWalk(ranked, c, m, n - 1);
      var v := WalkTo(ranked, c, n - 1);
      if w.picks != v.picks {
        assert w.picks[..|w.picks| - 1] == v.picks;
      }
    }
  }

  lemma {:induction false} BeforeAll(picks: seq<nat>, n: nat)
    requires forall j :: 0 <= j < |picks| ==> picks[j] < n
    ensures Before(picks, n) == picks
  {
    if picks != [] {
      BeforeAll(picks[..|picks| - 1], n);
    }
  }

  /** A stopped walk stops for every later item of a descending ranking. */
  lemma {:induction false} StoppedForGood(ranked: seq<Item>, c: Config, n: nat, i: nat)
    requires n <= i < |ranked| && Descending(ranked) && WalkTo(ranked, c, n).stopped
    ensures !Eligible(ranked, c, WalkTo(ranked, c, n).picks, i)
    decreases n
  {
    hide PassedOver;
    var v := WalkTo(ranked, c, n - 1);
    if v.stopped {
      StoppedForGood(ranked, c, n - 1, i);
    }
  }

  lemma {:induction false} RunningIsShort(ranked: seq<Item>, c: Config, n: nat)
    requires n <= |ranked|
    ensures |WalkTo(ranked, c, n).picks| <= Room(c)
    ensures !WalkTo(ranked, c, n).stopped ==> |WalkTo(ranked, c, n).picks| < Room(c)
  {
    hide PassedOver, BelowFloor;
    if n > 0 {
      RunningIsShort(ranked, c, n - 1);
    }
  }

  /** MAIN: for descending scores the results are exactly the items that, given the earlier
      results, are below the limit, in a wanted file with room left, not too close to a result
      and not below the floor. Every other item is explained by one of these. */
  lemma SelectedExactly(ranked: seq<Item>, c: Config, i: nat)
    requires Descending(ranked) && i < |ranked|
    ensures var picks := WalkTo(ranked, c, |ranked|).picks;
            i in picks <==> Eligible(ranked, c, Before(picks, i), i)
  {
    hide PassedOver, BelowFloor;
    var picks := WalkTo(ranked, c, |ranked|).picks;
    BeforeWalk(ranked, c, i, |ranked|);
    BeforeWalk(ranked, c, i + 1, |ranked|);
    var v, w := WalkTo(ranked, c, i), WalkTo(ranked, c, i + 1);
    InBefore(picks, i);
    RunningIsShort(ranked, c, i);
    if v.stopped {
      StoppedForGood(ranked, c, i, i);
    }
  }

  /** Given the results before it, the item at j ends the walk by the floor. */
  predicate Stopper(ranked: seq<Item>, c: Config, earlier: seq<nat>, j: nat)
    requires j < |ranked| && forall i :: 0 <= i < |earlier| ==> earlier[i] < |ranked|
  {
    |earlier| < Room(c) && !PassedOver(ranked, c, earlier, j) && BelowFloor(ranked, c, earlier, j)
  }

  predicate StoppedBefore(ranked: seq<Item>, c: Config, picks: seq<nat>, n: nat)
    requires n <= |ranked| && forall j :: 0 <= j < |picks| ==> picks[j] < |ranked|
  {
    exists j :: 0 <= j < n && Stopper(ranked, c, Before(picks, j), j)
  }

  lemma RoomIs(c: Config, n: nat)
    ensures Room(c) >= 1 && (n + 1 >= c.k <==> n + 1 >= Room(c))
  {
  }

  lemma {:induction false} StoppedBecause(ranked: seq<Item>, c: Config, n: nat)
    requires n <= |ranked|
    ensures var picks := WalkTo(ranked, c, |ranked|).picks;
            WalkTo(ranked, c, n).stopped <==>
            |WalkTo(ranked, c, n).picks| >= Room(c) || StoppedBefore(ranked, c, picks, n)
  {
    hide PassedOver, BelowFloor, Room;
    var picks := WalkTo(ranked, c, |ranked|).picks;
    RoomIs(c, 0);
    if n > 0 {
      var j := n - 1;
      RoomIs(c, |WalkTo(ranked, c, j).picks|);
      StoppedBecause(ranked, c, j);
      BeforeWalk(ranked, c, j, |ranked|);
      RunningIsShort(ranked, c, j);
      assert StoppedBefore(ranked, c, picks, n) <==>
             StoppedBefore(ranked, c, picks, j) || Stopper(ranked, c, Before(picks, j), j);
    }
  }

  /** MAIN: for every ranking, sorted or not, an item is a result if and only if no rule speaks
      against it given the earlier results and no item before it has ended the walk by the
      floor. */
  lemma SelectedWhen(ranked: seq<Item>, c: Config, i: nat)
    requires i < |ranked|
    ensures var picks := WalkTo(ranked, c, |ranked|).picks;
            i in picks <==> Eligible(ranked, c, Before(picks, i), i) && !StoppedBefore(ranked, c, picks, i)
  {
    hide PassedOver, BelowFloor, StoppedBefore;
    var picks := WalkTo(ranked, c, |ranked|).picks;
    BeforeWalk(ranked, c, i, |ranked|);
    BeforeWalk(ranked, c, i + 1, |ranked|);
    InBefore(picks, i);
    RunningIsShort(ranked, c, i);
    StoppedBecause(ranked, c, i);
  }

  lemma {:induction false} InBefore(picks: seq<nat>, i: nat)
    ensures i in picks <==> i in Before(picks, i + 1)
  {
    if picks != [] {
      InBefore(picks[..|picks| - 1], i);
      assert picks == picks[..|picks| - 1] + [picks[|picks| - 1]];
    }
  }

  lemma {:induction false} Quotas(ranked: seq<Item>, c: Config, n: nat, path: string)
    requires n <= |ranked|
    ensures InFile(ranked, WalkTo(ranked, c, n).picks, path) <= Max(c.perFile, 0)
  {
    hide PathOk, OverlapsPick, BelowFloor, InFile;
    NothingPicked(ranked, c);
    if n > 0 {
      Quotas(ranked, c, n - 1, path);
      var v := WalkTo(ranked, c, n - 1);
      AddPick(ranked, v.picks, n - 1);
    }
  }

  /** The places are of wanted files and no two of them overlap by the limit. */
  predicate Apart(ranked: seq<Item>, c: Config, picks: seq<nat>)
    requires forall j :: 0 <= j < |picks| ==> picks[j] < |ranked|
  {
    && (forall j :: 0 <= j < |picks| ==> PathOk(c, ranked[picks[j]].path))
    && (forall j, k :: 0 <= j < |picks| && 0 <= k < |picks| && j != k ==>
          OverlapRatio(ranked[picks[j]], ranked[picks[k]]) < OVERLAP_LIMIT)
  }

  lemma ApartAdd(ranked: seq<Item>, c: Config, picks: seq<nat>, i: nat)
    requires i < |ranked| && (forall j :: 0 <= j < |picks| ==> picks[j] < |ranked|)
    requires Apart(ranked, c, picks) && !PassedOver(ranked, c, picks, i)
    ensures Apart(ranked, c, picks + [i])
  {
    hide PathOk, OverlapRatio, InFile;
    forall j | 0 <= j < |picks| ensures OverlapRatio(ranked[picks[j]], ranked[i]) < OVERLAP_LIMIT {
      OverlapSymmetric(ranked[picks[j]], ranked[i]);
    }
  }

  lemma {:induction false} WalkApart(ranked: seq<Item>, c: Config, n: nat)
    requires n <= |ranked|
    ensures Apart(ranked, c, WalkTo(ranked, c, n).picks)
  {
    hide Apart, PassedOver, BelowFloor;
    if n > 0 {
      WalkApart(ranked, c, n - 1);
      var v := WalkTo(ranked, c, n - 1);
      if !PassedOver(ranked, c, v.picks, n - 1) {
        ApartAdd(ranked, c, v.picks, n - 1);
      }
    } else {
      NothingApart(ranked, c);
    }
  }

  lemma NothingApart(ranked: seq<Item>, c: Config)
    ensures Apart(ranked, c, [])
  {
  }

  /** MAIN: for every ranking, sorted or not: the results keep the order of the ranking, are at
      most k (or one), at most perFile in a file, of wanted files, and no two of them overlap by the
      limit. */
  lemma ResultsWellFormed(ranked: seq<Item>, c: Config)
    ensures var picks := WalkTo(ranked, c, |ranked|).picks;
            && |picks| <= Room(c)
            && (forall j, k :: 0 <= j < k < |picks| ==> picks[j] < picks[k])
            && (forall p :: InFile(ranked, picks, p) <= Max(c.perFile, 0))
            && Apart(ranked, c, picks)
  {
    RunningIsShort(ranked, c, |ranked|);
    WalkApart(ranked, c, |ranked|);
    forall p ensures InFile(ranked, WalkTo(ranked, c, |ranked|).picks, p) <= Max(c.perFile, 0) {
      Quotas(ranked, c, |ranked|, p);
    }
  }

  // ----- an unsorted ranking

  lemma {:induction false} NoneInFile(ranked: seq<Item>, picks: seq<nat>, path: string)
    requires forall j :: 0 <= j < |picks| ==> picks[j] < |ranked| && ranked[picks[j]].path != path
    ensures InFile(ranked, picks, path) == 0
  {
    if picks != [] {
      NoneInFile(ranked, picks[..|picks| - 1], path);
    }
  }

  /** With a file of its own an item is not passed over. */
  lemma OwnFile(ranked: seq<Item>, c: Config, picks: seq<nat>, i: nat)
    requires i < |ranked| && c.prefixes == [] && c.perFile >= 1
    requires forall j :: 0 <= j < |picks| ==> picks[j] < |ranked| && ranked[picks[j]].path != ranked[i].path
    ensures !PassedOver(ranked, c, picks, i)
  {
    NoneInFile(ranked, picks, ranked[i].path);
  }

  lemma NoFloorYet(ranked: seq<Item>, c: Config, picks: seq<nat>, i: nat)
    requires i < |ranked| && (forall j :: 0 <= j < |picks| ==> picks[j] < |ranked|) && |picks| < 3
    ensures !BelowFloor(ranked, c, picks, i)
  {
  }

  lemma HalfOfOne(ranked: seq<Item>, c: Config, picks: seq<nat>, i: nat)
    requires i < |ranked| && (forall j :: 0 <= j < |picks| ==> picks[j] < |ranked|)
    requires |picks| == 3 && c.floor == 0.5 && ranked[picks[0]].score == 1.0
    ensures BelowFloor(ranked, c, picks, i) <==> ranked[i].score < 0.5
  {
  }

  /** The walk picks the item at i, which is in a file of its own. */
  lemma PicksNext(ranked: seq<Item>, c: Config, picks: seq<nat>, i: nat)
    requires i < |ranked| && WalkTo(ranked, c, i) == Walk(picks, false)
    requires c.prefixes == [] && c.perFile >= 1 && |picks| < 3 && c.k > 3
    requires forall j :: 0 <= j < |picks| ==> picks[j] < |ranked| && ranked[picks[j]].path != ranked[i].path
    ensures WalkTo(ranked, c, i + 1) == Walk(picks + [i], false)
  {
    hide WalkTo, PassedOver, BelowFloor;
    OwnFile(ranked, c, picks, i);
    NoFloorYet(ranked, c, picks, i);
    TurnOf(ranked, c, picks, i);
  }

  const UNSORTED: seq<Item> := [Item("a", 1, 9, 1.0), Item("b", 1, 9, 1.0), Item("c", 1, 9, 1.0),
                                Item("d", 1, 9, 0.1), Item("e", 1, 9, 1.0)]
  const HALF: Config := Config(8, 2, [], 0.5)

  lemma ThreePicked()
    ensures WalkTo(UNSORTED, HALF, 3) == Walk([0, 1, 2], false)
  {
    hide WalkTo;
    NothingPicked(UNSORTED, HALF);
    PicksNext(UNSORTED, HALF, [], 0);
    assert [] + [0] == [0];
    PicksNext(UNSORTED, HALF, [0], 1);
    assert [0] + [1] == [0, 1];
    PicksNext(UNSORTED, HALF, [0, 1], 2);
    assert [0, 1] + [2] == [0, 1, 2];
  }

  /** A ranking that is not descending, which `rank_chunks` never delivers, can lose an item that
      no rule excludes: the floor stops the walk at an earlier item. */
  lemma UnsortedStopsEarly()
    ensures var picks := WalkTo(UNSORTED, HALF, 5).picks;
            picks == [0, 1, 2] && Eligible(UNSORTED, HALF, Before(picks, 4), 4)
  {
    hide PassedOver, WalkTo, BelowFloor, Before;
    ThreePicked();
    OwnFile(UNSORTED, HALF, [0, 1, 2], 3);
    HalfOfOne(UNSORTED, HALF, [0, 1, 2], 3);
    TurnOf(UNSORTED, HALF, [0, 1, 2], 3);
    StaysStopped(UNSORTED, HALF, 4, 5);
    BeforeAll([0, 1, 2], 4);
    OwnFile(UNSORTED, HALF, [0, 1, 2], 4);
    HalfOfOne(UNSORTED, HALF, [0, 1, 2], 4);
  }

  // ----- the rules in their own terms

  /** The path lies under one of the prefixes, if there are any. */
  ghost predicate Wanted(prefixes: seq<string>, path: string) {
    prefixes == [] || exists p, rest: string :: p in prefixes && path == p + rest
  }

  lemma PathExactly(c: Config, path: string)
    ensures PathOk(c, path) <==> Wanted(c.prefixes, path)
  {
    if i :| 0 <= i < |c.prefixes| && c.prefixes[i] <= path {
      assert path == c.prefixes[i] + path[|c.prefixes[i]|..];
    }
    if p, rest: string :| p in c.prefixes && path == p + rest {
      var i :| 0 <= i < |c.prefixes| && c.prefixes[i] == p;
      assert c.prefixes[i] <= path;
    }
  }

  /** One matching prefix is enough, and a further prefix excludes nothing. */
  lemma PrefixesWiden(c: Config, more: seq<string>, path: string)
    requires c.prefixes != []
    ensures PathOk(c, path) ==> PathOk(c.(prefixes := c.prefixes + more), path)
    ensures forall p :: p in more && p <= path ==> PathOk(c.(prefixes := c.prefixes + more), path)
  {
    hide PathOk;
    PathExactly(c, path);
    PathExactly(c.(prefixes := c.prefixes + more), path);
    forall p | p in more && p <= path ensures Wanted(c.prefixes + more, path) {
      assert path == p + path[|p|..];
    }
  }

  /** The lines of an item. */
  function LinesOf(a: Item): set<int> {
    Text.LineSet(a.start, a.end)
  }

  lemma LinesMeet(a: Item, b: Item)
    requires a.start <= a.end && b.start <= b.end
    ensures |LinesOf(a)| == a.end - a.start + 1 && |LinesOf(b)| == b.end - b.start + 1
    ensures var left, right := Max(a.start, b.start), Min(a.end, b.end);
            |LinesOf(a) * LinesOf(b)| == if left <= right then right - left + 1 else 0
  {
    var left, right := Max(a.start, b.start), Min(a.end, b.end);
    Text.LineSetSize(a.start, a.end);
    Text.LineSetSize(b.start, b.end);
    Text.LineSetSize(left, right);
    assert LinesOf(a) * LinesOf(b) == Text.LineSet(left, right);
  }

  lemma RatioTimes(n: int, d: int)
    requires d >= 1
    ensures n as real / d as real * d as real == n as real
  {
  }

  /** MAIN: in one file the ratio is the number of lines both items hold, over that of the shorter. */
  lemma OverlapExactly(a: Item, b: Item)
    requires a.path == b.path && a.start <= a.end && b.start <= b.end
    ensures OverlapRatio(a, b) * Min(|LinesOf(a)|, |LinesOf(b)|) as real == |LinesOf(a) * LinesOf(b)| as real
  {
    hide LinesOf;
    LinesMeet(a, b);
    RatioTimes(Min(a.end, b.end) - Max(a.start, b.start) + 1, Min(a.end - a.start + 1, b.end - b.start + 1));
  }

  /** The results before the place i. */
  function Earlier(picks: seq<nat>, i: nat): set<nat> {
    set j | j in picks && j < i
  }

  /** No rule speaks against the item at i: there is room among the results and in its file, its file
      is wanted, no earlier result shares 72 of 100 lines with it, and it is among the first four or
      scores at least the floor's share of the first result. */
  ghost predicate Allowed(ranked: seq<Item>, c: Config, earlier: set<nat>, i: nat)
    requires i < |ranked| && forall j :: j in earlier ==> j < |ranked|
  {
    && |earlier| < Room(c) && Wanted(c.prefixes, ranked[i].path)
    && |PlacesIn(ranked, earlier, ranked[i].path)| < c.perFile
    && (forall j :: j in earlier ==> OverlapRatio(ranked[i], ranked[j]) < 0.72)
    && !TooLow(ranked, c, earlier, i)
  }

  /** Three results are there, and the item scores less than the floor's share of the first one. */
  ghost predicate TooLow(ranked: seq<Item>, c: Config, earlier: set<nat>, i: nat)
    requires i < |ranked| && forall j :: j in earlier ==> j < |ranked|
  {
    && |earlier| >= 3 && c.floor > 0.0
    && exists b: nat :: Least(earlier, b) && ranked[i].score < ranked[b].score * c.floor
  }

  predicate Least(places: set<nat>, b: nat) {
    b in places && forall j :: j in places ==> b <= j
  }

  predicate Increasing(picks: seq<nat>) {
    forall j, k :: 0 <= j < k < |picks| ==> picks[j] < picks[k]
  }

  lemma {:induction false} BeforeMembers(picks: seq<nat>, i: nat)
    ensures forall j :: j in Before(picks, i) <==> j in picks && j < i
  {
    if picks != [] {
      BeforeMembers(picks[..|picks| - 1], i);
      assert picks == picks[..|picks| - 1] + [picks[|picks| - 1]];
    }
  }

  lemma {:induction false} BeforeIncreases(picks: seq<nat>, i: nat)
    requires Increasing(picks)
    ensures Increasing(Before(picks, i))
  {
    if picks != [] {
      var last := |picks| - 1;
      BeforeIncreases(picks[..last], i);
      AllBelow(picks, Before(picks[..last], i));
    }
  }

  lemma AllBelow(picks: seq<nat>, front: seq<nat>)
    requires picks != [] && Increasing(picks) && forall j :: 0 <= j < |front| ==> front[j] in picks[..|picks| - 1]
    ensures forall j :: 0 <= j < |front| ==> front[j] < picks[|picks| - 1]
  {
    var rest := picks[..|picks| - 1];
    forall j | 0 <= j < |front| ensures front[j] < picks[|picks| - 1] {
      assert front[j] in rest;
      var k :| 0 <= k < |rest| && rest[k] == front[j];
      assert picks[k] < picks[|picks| - 1];
    }
  }

  lemma EarlierIsBefore(picks: seq<nat>, i: nat)
    requires Increasing(picks)
    ensures Increasing(Before(picks, i)) && (set j | j in Before(picks, i)) == Earlier(picks, i)
  {
    hide Before;
    BeforeIncreases(picks, i);
    BeforeMembers(picks, i);
  }

  /** The places that are in the file. */
  function PlacesIn(ranked: seq<Item>, picks: set<nat>, path: string): set<nat>
    requires forall j :: j in picks ==> j < |ranked|
  {
    set j | j in picks && ranked[j].path == path
  }

  function Places(picks: seq<nat>): set<nat> {
    set j | j in picks
  }

  lemma PlacesAdd(ranked: seq<Item>, front: seq<nat>, p: nat, path: string)
    requires p < |ranked| && p !in front && forall j :: 0 <= j < |front| ==> front[j] < |ranked|
    ensures Places(front + [p]) == Places(front) + {p} && p !in Places(front)
    ensures PlacesIn(ranked, Places(front + [p]), path)
            == PlacesIn(ranked, Places(front), path) + (if ranked[p].path == path then {p} else {})
  {
    assert forall j :: j in front + [p] <==> j in front || j == p;
  }

  lemma {:induction false} FileIsSet(ranked: seq<Item>, picks: seq<nat>, path: string)
    requires Increasing(picks) && forall j :: 0 <= j < |picks| ==> picks[j] < |ranked|
    ensures InFile(ranked, picks, path) == |PlacesIn(ranked, Places(picks), path)|
    ensures |picks| == |Places(picks)|
  {
    if picks == [] {
      assert Places(picks) == {} && PlacesIn(ranked, Places(picks), path) == {};
    } else {
      hide Places, PlacesIn;
      var last := |picks| - 1;
      var front, p := picks[..last], picks[last];
      FileIsSet(ranked, front, path);
      assert picks == front + [p];
      assert p !in front;
      PlacesAdd(ranked, front, p, path);
      NotYetIn(ranked, front, p, path);
    }
  }

  lemma NotYetIn(ranked: seq<Item>, front: seq<nat>, p: nat, path: string)
    requires p !in front && forall j :: 0 <= j < |front| ==> front[j] < |ranked|
    ensures p !in PlacesIn(ranked, Places(front), path)
  {
  }

  lemma OverlapsSet(ranked: seq<Item>, picks: seq<nat>, i: nat)
    requires i < |ranked| && forall j :: 0 <= j < |picks| ==> picks[j] < |ranked|
    ensures OverlapsPick(ranked, picks, i) <==> !(forall j :: j in picks ==> OverlapRatio(ranked[i], ranked[j]) < 0.72)
  {
    hide OverlapRatio;
    if j :| 0 <= j < |picks| && OverlapRatio(ranked[i], ranked[picks[j]]) >= OVERLAP_LIMIT {
      assert picks[j] in picks;
    }
  }

  lemma FloorSet(ranked: seq<Item>, c: Config, picks: seq<nat>, earlier: set<nat>, i: nat)
    requires i < |ranked| && Increasing(picks) && forall j :: 0 <= j < |picks| ==> picks[j] < |ranked|
    requires earlier == Places(picks) && |earlier| == |picks|
    ensures BelowFloor(ranked, c, picks, i) <==> TooLow(ranked, c, earlier, i)
  {
    hide Least, Increasing;
    if |picks| >= 3 {
      FirstIsLeast(picks);
      forall b: nat | Least(earlier, b) ensures b == picks[0] {
        OneLeast(earlier, b, picks[0]);
      }
    }
  }

  lemma OneLeast(places: set<nat>, b: nat, d: nat)
    requires Least(places, b) && Least(places, d)
    ensures b == d
  {
  }

  lemma FirstIsLeast(picks: seq<nat>)
    requires picks != [] && Increasing(picks)
    ensures Least(Places(picks), picks[0])
  {
    forall j | j in Places(picks) ensures picks[0] <= j {
      var k :| 0 <= k < |picks| && picks[k] == j;
    }
  }

  /** Given increasing picks before it, an item is eligible exactly when no rule speaks against it. */
  lemma EligibleExactly(ranked: seq<Item>, c: Config, picks: seq<nat>, i: nat)
    requires i < |ranked| && Increasing(picks) && forall j :: 0 <= j < |picks| ==> picks[j] < |ranked|
    ensures Eligible(ranked, c, Before(picks, i), i) <==> Allowed(ranked, c, Earlier(picks, i), i)
    ensures Stopper(ranked, c, Before(picks, i), i) ==> TooLow(ranked, c, Earlier(picks, i), i)
    ensures |Earlier(picks, i)| == |Before(picks, i)|
  {
    hide PathOk, InFile, OverlapsPick, OverlapRatio, BelowFloor, TooLow, Wanted;
    var before, earlier := Before(picks, i), Earlier(picks, i);
    EarlierIsBefore(picks, i);
    FileIsSet(ranked, before, ranked[i].path);
    OverlapsSet(ranked, before, i);
    FloorSet(ranked, c, before, earlier, i);
    PathExactly(c, ranked[i].path);
    assert Places(before) == earlier;
  }

  /** MAIN: for descending scores the results are exactly the items no rule speaks against. */
  lemma ResultsExactly(ranked: seq<Item>, c: Config, i: nat)
    requires Descending(ranked) && i < |ranked|
    ensures var picks := WalkTo(ranked, c, |ranked|).picks;
            i in picks <==> Allowed(ranked, c, Earlier(picks, i), i)
  {
    hide WalkTo, Eligible, Allowed, Before;
    var picks := WalkTo(ranked, c, |ranked|).picks;
    SelectedExactly(ranked, c, i);
    EligibleExactly(ranked, c, picks, i);
  }
}
