/** Splitting the missing bytes among peers (`_regions_from_gaps` of
    core/download/runner.py). */
module Regions {
  import opened Base
  import opened Gaps

  // ----- counting missing bytes from the left -----

  function Below(gaps: seq<Gap>, x: int): int {
    if gaps == [] then 0
    else Max(0, Min(gaps[0].end, x) - gaps[0].start) + Below(gaps[1..], x)
  }

  ghost function MissingBelow(gaps: seq<Gap>, total: nat, x: int): set<int> {
    set y | y in Missing(gaps, total) && y < x
  }

  lemma {:induction false} BelowSplits(gaps: seq<Gap>, total: nat, x: int)
    requires Canonical(gaps, total) && gaps != []
    ensures var g := gaps[0];
            var first, rest := Bytes(g.start, Max(g.start, Min(g.end, x))), MissingBelow(gaps[1..], total, x);
            MissingBelow(gaps, total, x) == first + rest && first !! rest
  {
    var g := gaps[0];
    var first, rest := Bytes(g.start, Max(g.start, Min(g.end, x))), MissingBelow(gaps[1..], total, x);
    forall y
      ensures y in MissingBelow(gaps, total, x) <==> y in first || y in rest
      ensures !(y in first && y in rest)
    {
      TailGaps(gaps, total, y);
    }
  }

  lemma {:induction false} BelowIsCount(gaps: seq<Gap>, total: nat, x: int)
    requires Canonical(gaps, total)
    ensures Below(gaps, x) == |MissingBelow(gaps, total, x)|
    decreases |gaps|
  {
    if gaps == [] {
      assert MissingBelow(gaps, total, x) == {};
    } else {
      var g := gaps[0];
      TailGaps(gaps, total, 0);
      BelowIsCount(gaps[1..], total, x);
      IntervalSize(g.start, Max(g.start, Min(g.end, x)));
      BelowSplits(gaps, total, x);
    }
  }

  /** The missing bytes of a region. */
  ghost function MissingIn(gaps: seq<Gap>, total: nat, region: Gap): set<int> {
    Missing(gaps, total) * Bytes(region.start, region.end)
  }

  lemma {:induction false} RegionCount(gaps: seq<Gap>, total: nat, region: Gap)
    requires Canonical(gaps, total) && region.start <= region.end
    ensures |MissingIn(gaps, total, region)| == Below(gaps, region.end) - Below(gaps, region.start)
  {
    BelowIsCount(gaps, total, region.start);
    BelowIsCount(gaps, total, region.end);
    var a, b := MissingBelow(gaps, total, region.start), MissingBelow(gaps, total, region.end);
    assert a <= b && MissingIn(gaps, total, region) == b - a;
  }

  // ----- the cursor -----

  /** Missing bytes from position `pos` of gap `idx` on. */
  function Rest(gaps: seq<Gap>, idx: nat, pos: int): int
    requires idx < |gaps|
  {
    gaps[idx].end - pos + Total(gaps[idx + 1..])
  }

  lemma {:induction false} BelowCursor(gaps: seq<Gap>, total: nat, idx: nat, pos: int)
    requires Canonical(gaps, total) && idx < |gaps| && gaps[idx].start <= pos <= gaps[idx].end
    ensures Below(gaps, pos) == Total(gaps) - Rest(gaps, idx, pos)
    decreases idx
  {
    TailGaps(gaps, total, 0);
    if idx == 0 {
      BelowNothing(gaps[1..], total, pos);
    } else {
      assert gaps[1..][idx - 1] == gaps[idx] && gaps[0].end < gaps[idx].start;
      assert gaps[1..][idx..] == gaps[idx + 1..];
      BelowCursor(gaps[1..], total, idx - 1, pos);
    }
  }

  lemma {:induction false} BelowNothing(gaps: seq<Gap>, total: nat, x: int)
    requires Canonical(gaps, total) && (gaps != [] ==> x <= gaps[0].start)
    ensures Below(gaps, x) == 0
    decreases |gaps|
  {
    if gaps != [] {
      TailGaps(gaps, total, 0);
      if |gaps| > 1 {
        assert gaps[0].end < gaps[1].start;
      }
      BelowNothing(gaps[1..], total, x);
    }
  }

  lemma {:induction false} TotalPositive(gaps: seq<Gap>, total: nat)
    requires Canonical(gaps, total)
    ensures Total(gaps) >= |gaps|
    decreases |gaps|
  {
    if gaps != [] {
      TailGaps(gaps, total, 0);
      TotalPositive(gaps[1..], total);
    }
  }

  /** A place between missing bytes: not at the end of a gap, unless it is the last. */
  ghost predicate OnCursor(gaps: seq<Gap>, idx: nat, pos: int) {
    && idx < |gaps|
    && gaps[idx].start <= pos <= gaps[idx].end
    && (pos == gaps[idx].end ==> idx == |gaps| - 1)
  }

  lemma {:induction false} RestAtCursor(gaps: seq<Gap>, total: nat, idx: nat, pos: int)
    requires Canonical(gaps, total) && OnCursor(gaps, idx, pos)
    ensures Rest(gaps, idx, pos) >= 0
    ensures Rest(gaps, idx, pos) == 0 <==> pos == gaps[idx].end
    ensures Rest(gaps, idx, pos) == 0 ==> pos == gaps[|gaps| - 1].end
  {
    assert Canonical(gaps[idx + 1..], total);
    TotalPositive(gaps[idx + 1..], total);
  }

  /** The inner loop: move right over at most `per` missing bytes. */
  method TakeRegion(gaps: seq<Gap>, ghost total: nat, per: nat, idx0: nat, pos0: int)
    returns (idx: nat, pos: int)
    requires Canonical(gaps, total) && OnCursor(gaps, idx0, pos0)
    ensures OnCursor(gaps, idx, pos) && pos0 <= pos
    ensures Rest(gaps, idx, pos) == Max(0, Rest(gaps, idx0, pos0) - per)
    ensures pos == pos0 <==> per == 0 || Rest(gaps, idx0, pos0) == 0
  {
    idx, pos := idx0, pos0;
    var budget := per;
    RestAtCursor(gaps, total, idx, pos);
    while budget > 0 && idx < |gaps|
      invariant OnCursor(gaps, idx, pos) && 0 <= budget <= per && pos0 <= pos
      invariant Rest(gaps, idx, pos) + (per - budget) == Rest(gaps, idx0, pos0)
      invariant pos == pos0 <==> budget == per
      decreases budget
    {
      RestAtCursor(gaps, total, idx, pos);
      var gapEnd := gaps[idx].end;
      var take := Min(gapEnd - pos, budget);
      if take <= 0 {
        // Only at the end of the last gap; the source's step to a next gap never runs here.
        break;
      }
      pos := pos + take;
      budget := budget - take;
      if pos >= gapEnd && idx + 1 < |gaps| {
        assert gaps[idx + 1..] == [gaps[idx + 1]] + gaps[idx + 2..];
        idx := idx + 1;
        pos := gaps[idx].start;
      }
    }
    RestAtCursor(gaps, total, idx, pos);
  }

  lemma {:induction false} EnoughForAll(total: nat, peers: nat)
    requires peers > 0
    ensures peers * CeilDiv(total, peers) >= total
  {
    var q := CeilDiv(total, peers);
    assert q * peers > total + peers - 1 - peers;
  }

  /** Regions abut, from `first` to `end`. */
  ghost predicate Tiles(regions: seq<Gap>, first: int, end: int) {
    if regions == [] then first == end
    else
      && regions[0].start == first
      && regions[|regions| - 1].end == end
      && forall i :: 0 <= i < |regions| - 1 ==> regions[i].end == regions[i + 1].start
  }

  /** Each region holds `per` missing bytes, the last one between 1 and `per`. */
  ghost predicate Shares(gaps: seq<Gap>, total: nat, regions: seq<Gap>, per: nat) {
    && (forall i :: 0 <= i < |regions| - 1 ==> |MissingIn(gaps, total, regions[i])| == per)
    && (regions != [] ==> 1 <= |MissingIn(gaps, total, regions[|regions| - 1])| <= per)
  }

  /** Every region so far is full, unless nothing is left. */
  ghost predicate AllFull(gaps: seq<Gap>, total: nat, regions: seq<Gap>, per: nat) {
    forall i :: 0 <= i < |regions| ==> |MissingIn(gaps, total, regions[i])| == per
  }

  /** The next region takes its share of what is left. */
  lemma {:induction false} AddRegion(gaps: seq<Gap>, total: nat, regions: seq<Gap>, per: nat, idx0: nat, start: int, idx: nat, pos: int)
    requires Canonical(gaps, total) && OnCursor(gaps, idx0, start) && OnCursor(gaps, idx, pos) && start < pos
    requires Rest(gaps, idx, pos) == Max(0, Rest(gaps, idx0, start) - per)
    requires Rest(gaps, idx0, start) > 0 && per > 0
    requires Tiles(regions, gaps[0].start, start) && AllFull(gaps, total, regions, per)
    ensures Tiles(regions + [Gap(start, pos)], gaps[0].start, pos)
    ensures Shares(gaps, total, regions + [Gap(start, pos)], per)
    ensures Rest(gaps, idx, pos) > 0 ==> AllFull(gaps, total, regions + [Gap(start, pos)], per)
  {
    BelowCursor(gaps, total, idx0, start);
    BelowCursor(gaps, total, idx, pos);
    RegionCount(gaps, total, Gap(start, pos));
  }

  method Sum(gaps: seq<Gap>, ghost total: nat) returns (sum: nat)
    requires Canonical(gaps, total)
    ensures sum == Total(gaps) == |Missing(gaps, total)|
  {
    sum := 0;
    var k := 0;
    while k < |gaps|
      invariant k <= |gaps| && sum + Total(gaps[k..]) == Total(gaps)
    {
      sum := sum + (gaps[k].end - gaps[k].start);
      k := k + 1;
    }
    TotalIsCount(gaps, total);
  }

  /** `_regions_from_gaps`: at most one region for each peer, tiling the gap space,
      each with an equal share of the missing bytes but the last, which has what
      is left, at least one byte. */
  method RegionsFromGaps(gaps: seq<Gap>, ghost total: nat, peers: int) returns (regions: seq<Gap>)
    requires Canonical(gaps, total)
    ensures gaps == [] || peers <= 0 ==> regions == []
    ensures gaps != [] && peers > 0 ==>
              && 0 < |regions| <= peers
              && Tiles(regions, gaps[0].start, gaps[|gaps| - 1].end)
              && Shares(gaps, total, regions, CeilDiv(|Missing(gaps, total)|, peers))
  {
    if gaps == [] || peers <= 0 {
      return [];
    }
    var sum := Sum(gaps, total);
    TotalPositive(gaps, total);
    var per := (sum + peers - 1) / peers;
    EnoughForAll(sum, peers);
    PositiveShare(sum, peers);
    regions := [];
    var idx, pos := 0, gaps[0].start;
    ghost var used := 0;
    var i := 0;
    while i < peers
      invariant 0 <= i <= peers && |regions| == i && used == i * per
      invariant OnCursor(gaps, idx, pos) && Rest(gaps, idx, pos) == Max(0, sum - used)
      invariant Tiles(regions, gaps[0].start, pos) && Shares(gaps, total, regions, per)
      invariant Rest(gaps, idx, pos) > 0 ==> AllFull(gaps, total, regions, per)
    {
      var start, idx0 := pos, idx;
      RestAtCursor(gaps, total, idx, pos);
      idx, pos := TakeRegion(gaps, total, per, idx0, start);
      if pos > start {
        AddRegion(gaps, total, regions, per, idx0, start, idx, pos);
        regions := regions + [Gap(start, pos)];
      } else {
        break;
      }
      used := used + per;
      OneMore(i, per);
      i := i + 1;
    }
    RestAtCursor(gaps, total, idx, pos);
  }

  lemma {:induction false} OneMore(i: nat, per: nat)
    ensures (i + 1) * per == i * per + per
  {
  }

  lemma {:induction false} PositiveShare(sum: nat, peers: nat)
    requires sum > 0 && peers > 0
    ensures CeilDiv(sum, peers) > 0
  {
  }
}
