/** When a peer's selection issues a block, given what the other peers have in
    flight (core/download/ics.py under core/download/runner.py). */
module Progress {
  import opened Base
  import opened Ics
  import opened IcsSelect
  import opened IcsBlocks
  import opened Registry
  import G = Gaps

  predicate Touches(r: Range, part: int) {
    r.lo / PART_SIZE <= part <= r.hi / PART_SIZE
  }

  ghost function TouchingPart(req: set<Range>, part: int): set<Range> {
    set r | r in req && Touches(r, part)
  }

  // ----- a gap size is a number of bytes -----

  ghost function BytesIn(gaps: seq<Range>, bounds: Range): set<int> {
    set x: int | bounds.lo <= x <= bounds.hi && InRanges(gaps, x)
  }

  lemma {:induction false} OverlapCount(gap: Range, bounds: Range, bytes: set<int>)
    requires forall x :: x in bytes <==> Meets(gap, x) && Meets(bounds, x)
    ensures |bytes| == Overlap(gap, bounds)
  {
    var lo, hi := Max(gap.lo, bounds.lo), Min(gap.hi, bounds.hi);
    if hi >= lo {
      G.IntervalSize(lo, hi + 1);
      forall x
        ensures x in bytes <==> x in G.Bytes(lo, hi + 1)
      {
      }
      assert bytes == G.Bytes(lo, hi + 1);
    } else {
      forall x
        ensures x !in bytes
      {
      }
      assert bytes == {};
    }
  }

  lemma {:induction false} FirstApart(gaps: seq<Range>, totalSize: int, x: int)
    requires SortedRanges(gaps, totalSize) && gaps != []
    ensures SortedRanges(gaps[1..], totalSize)
    ensures !(Meets(gaps[0], x) && InRanges(gaps[1..], x))
  {
    if InRanges(gaps[1..], x) {
      var i :| 0 <= i < |gaps[1..]| && Meets(gaps[1..][i], x);
      assert gaps[0].hi + 1 < gaps[i + 1].lo;
    }
  }

  lemma {:induction false} PartGapCount(gaps: seq<Range>, totalSize: int, bounds: Range)
    requires SortedRanges(gaps, totalSize)
    ensures PartGap(gaps, bounds) == |BytesIn(gaps, bounds)|
    decreases |gaps|
  {
    if gaps == [] {
      assert BytesIn(gaps, bounds) == {};
    } else {
      var first := set x: int | bounds.lo <= x <= bounds.hi && Meets(gaps[0], x);
      var rest := BytesIn(gaps[1..], bounds);
      FirstApart(gaps, totalSize, 0);
      PartGapCount(gaps[1..], totalSize, bounds);
      OverlapCount(gaps[0], bounds, first);
      forall x
        ensures x in BytesIn(gaps, bounds) <==> x in first || x in rest
        ensures !(x in first && x in rest)
      {
        FirstRange(gaps, x);
        FirstApart(gaps, totalSize, x);
      }
      assert BytesIn(gaps, bounds) == first + rest && first !! rest;
    }
  }

  // ----- how many ranges it takes to request a part -----

  lemma {:induction false} OneRange(r: Range, bytes: set<int>)
    requires SameWindow(r.lo, r.hi) && r.lo <= r.hi && forall x :: x in bytes ==> Meets(r, x)
    ensures |bytes| <= EMBLOCK_SIZE
  {
    G.IntervalSize(r.lo, r.hi + 1);
    assert forall x :: x in bytes ==> x in G.Bytes(r.lo, r.hi + 1);
    SubsetSize(bytes, G.Bytes(r.lo, r.hi + 1));
    WindowWidth(r);
  }

  lemma {:induction false} WindowWidth(r: Range)
    requires SameWindow(r.lo, r.hi) && r.lo <= r.hi
    ensures r.hi - r.lo + 1 <= EMBLOCK_SIZE
  {
  }

  /** Bytes requested by ranges of one window each: no more than so many windows. */
  lemma {:induction false} CoverCount(bytes: set<int>, ranges: set<Range>)
    requires forall r :: r in ranges ==> SameWindow(r.lo, r.hi) && r.lo <= r.hi
    requires forall x :: x in bytes ==> Requested(x, ranges)
    ensures |bytes| <= EMBLOCK_SIZE * |ranges|
    decreases |ranges|
  {
    if ranges == {} {
      assert bytes == {};
    } else {
      var r :| r in ranges;
      var others := ranges - {r};
      var inside := set x | x in bytes && Meets(r, x);
      var outside := bytes - inside;
      forall x | x in outside
        ensures Requested(x, others)
      {
        var q :| q in ranges && q.lo <= x <= q.hi;
        assert q in others;
      }
      CoverCount(outside, others);
      OneRange(r, inside);
      assert bytes == inside + outside;
      assert |ranges| == |others| + 1;
    }
  }

  lemma {:induction false} EnoughRanges(gap: nat, ranges: nat)
    requires 0 < gap <= EMBLOCK_SIZE * ranges
    ensures OverAssigned(ranges, gap)
  {
  }

  lemma {:induction false} TouchesItsPart(r: Range, p: nat, x: int, totalSize: int)
    requires Meets(r, x) && Meets(PartBounds(p, totalSize), x)
    ensures Touches(r, p)
  {
    assert x / PART_SIZE == p;
    assert r.lo / PART_SIZE <= x / PART_SIZE <= r.hi / PART_SIZE;
  }

  /** A part all of whose missing bytes the given ranges request is over-assigned by
      those of them that touch it. */
  lemma {:induction false} RequestedIsOverAssigned(a: Ask, p: int, others: set<Range>)
    requires SortedRanges(a.gaps, a.totalSize) && Wanted(a, p)
    requires forall r :: r in others ==> SameWindow(r.lo, r.hi) && r.lo <= r.hi
    requires forall x :: Meets(PartBounds(p, a.totalSize), x) && InRanges(a.gaps, x) ==> Requested(x, others)
    ensures OverAssigned(|TouchingPart(others, p)|, GapSize(a, p))
  {
    var bounds := PartBounds(p, a.totalSize);
    var bytes, touching := BytesIn(a.gaps, bounds), TouchingPart(others, p);
    PartGapCount(a.gaps, a.totalSize, bounds);
    forall x | x in bytes
      ensures Requested(x, touching)
    {
      var r :| r in others && r.lo <= x <= r.hi;
      TouchesItsPart(r, p, x, a.totalSize);
      assert r in touching;
    }
    CoverCount(bytes, touching);
    EnoughRanges(GapSize(a, p), |touching|);
  }

  // ----- a block is issued -----

  /** The runner's counts: for each part, the ranges in flight that touch it and that
      this peer did not issue. */
  ghost predicate CountsOthers(a: Ask, others: set<Range>) {
    forall p :: (if p in a.downloading then a.downloading[p] else 0) == |TouchingPart(others, p)|
  }

  /** An exhausted candidate can only come before a free one below its limit if it is
      the sticky part or the peer's own ranges touch it. */
  lemma {:induction false} OthersComeLater(a: Ask, missing: set<int>, req: set<Range>, own: set<Range>,
                                           lastPart: Option<int>, e: int, f: int)
    requires Inv(missing, req) && Lists(a.gaps, missing, a.totalSize) && CountsOthers(a, req - own)
    requires Free(a, req, f) && !OverAssigned(|TouchingPart(req - own, f)|, GapSize(a, f))
    requires MayPrecede(a, req, lastPart, e, f)
    ensures lastPart == Some(e) || exists r :: r in req && r in own && Touches(r, e)
  {
    if lastPart != Some(e) && !exists r :: r in req && r in own && Touches(r, e) {
      NextBlockExists(PartBounds(e, a.totalSize), a.gaps, req);
      forall x | Meets(PartBounds(e, a.totalSize), x) && InRanges(a.gaps, x)
        ensures Requested(x, req - own)
      {
        var r :| r in req && r.lo <= x <= r.hi;
        TouchesItsPart(r, e, x, a.totalSize);
        assert r in req - own;
      }
      assert forall r :: r in req - own ==> Whole(missing, r);
      RequestedIsOverAssigned(a, e, req - own);
      PenaltyDecides(a, req - own, e, f);
    }
  }

  lemma {:induction false} PenaltyDecides(a: Ask, others: set<Range>, e: int, f: int)
    requires SortedRanges(a.gaps, a.totalSize) && CountsOthers(a, others) && Wanted(a, e) && Wanted(a, f)
    requires OverAssigned(|TouchingPart(others, e)|, GapSize(a, e))
    requires !OverAssigned(|TouchingPart(others, f)|, GapSize(a, f))
    ensures forall m :: PrefOf(a, m, f) < PrefOf(a, m, e)
  {
    GapFits(a, e);
    GapFits(a, f);
    forall m
      ensures PrefOf(a, m, f) < PrefOf(a, m, e)
    {
      OverAssignedRanksLast(m, GapSize(a, f), |TouchingPart(others, f)|, GapSize(a, e), |TouchingPart(others, e)|);
    }
  }

  /** A block is issued whenever a candidate below the assignment limit has a free
      byte and there are more turns than exhausted candidates that are sticky or that
      the peer's own ranges touch. */
  lemma {:induction false} ProgressBelowLimit(a: Ask, missing: set<int>, req: set<Range>, own: set<Range>,
                                              lastPart: Option<int>, turns: seq<Turn>, maxBlocks: nat, f: int, slow: set<int>)
    requires Inv(missing, req) && Lists(a.gaps, missing, a.totalSize) && CountsOthers(a, req - own)
    requires Legal(a, req, lastPart, turns) && Ended(a, turns, maxBlocks)
    requires Free(a, req, f) && !OverAssigned(|TouchingPart(req - own, f)|, GapSize(a, f))
    requires forall e :: Exhausted(a, req, e) && (lastPart == Some(e) || exists r :: r in req && r in own && Touches(r, e)) ==>
               e in slow
    requires |slow| < maxBlocks
    ensures Blocks(turns) != []
  {
    forall e | MayPrecede(a, req, lastPart, e, f)
      ensures e in slow
    {
      OthersComeLater(a, missing, req, own, lastPart, e, f);
    }
    BlockIsIssued(a, req, lastPart, turns, maxBlocks, f, slow);
  }

  /** No turn goes to an over-assigned part that is not sticky while a candidate below
      the limit is left. */
  lemma {:induction false} TurnDominance(a: Ask, others: set<Range>, req: set<Range>, lastPart: Option<int>,
                                         before: seq<Turn>, t: Turn, better: int)
    requires SortedRanges(a.gaps, a.totalSize) && CountsOthers(a, others)
    requires TurnOk(a, req, lastPart, before, t) && LastOf(lastPart, before) != Some(t.part)
    requires Candidate(a, Gone(before), better) && !OverAssigned(|TouchingPart(others, better)|, GapSize(a, better))
    ensures !OverAssigned(|TouchingPart(others, t.part)|, GapSize(a, t.part))
  {
    var m := ModeLeft(a, Gone(before));
    assert PrefOf(a, m, t.part) <= PrefOf(a, m, better);
    if OverAssigned(|TouchingPart(others, t.part)|, GapSize(a, t.part)) {
      PenaltyDecides(a, others, t.part, better);
    }
  }

  // ----- no block is issued -----

  /** A file of four parts, three of which have 1000 missing bytes and the last one
      10. The peer has asked for the 3000 bytes and asks again, as it does when it is
      told they are not available: three turns go to the exhausted parts. */
  function Gaps4(): seq<Range> {
    [Range(0, 999), Range(PART_SIZE, PART_SIZE + 999), Range(2 * PART_SIZE, 2 * PART_SIZE + 999),
     Range(3 * PART_SIZE, 3 * PART_SIZE + 9)]
  }

  function Ask4(frequencies: seq<int>): Ask {
    Ask(4 * PART_SIZE, Gaps4(), {0, 1, 2, 3}, frequencies, map[])
  }

  ghost function InFlight4(): set<Range> {
    {Gaps4()[0], Gaps4()[1], Gaps4()[2]}
  }

  lemma {:induction false} PartGapFirst(first: Range, rest: seq<Range>, bounds: Range)
    ensures PartGap([first] + rest, bounds) == Overlap(first, bounds) + PartGap(rest, bounds)
  {
    assert ([first] + rest)[1..] == rest;
  }

  lemma {:induction false} Gap4(a: Ask, p: nat)
    requires a == Ask4(a.frequencies) && p < 4
    ensures PartCount(4 * PART_SIZE) == 4 && SortedRanges(Gaps4(), 4 * PART_SIZE)
    ensures GapSize(a, p) == (if p < 3 then 1000 else 10) && Wanted(a, p)
  {
    var g, bounds := Gaps4(), PartBounds(p, 4 * PART_SIZE);
    PartGapFirst(g[3], [], bounds);
    PartGapFirst(g[2], [g[3]], bounds);
    PartGapFirst(g[1], [g[2], g[3]], bounds);
    PartGapFirst(g[0], [g[1], g[2], g[3]], bounds);
    assert g == [g[0]] + [g[1], g[2], g[3]] && [g[1], g[2], g[3]] == [g[1]] + [g[2], g[3]] && [g[2], g[3]] == [g[2]] + [g[3]];
    assert [g[3]] == [g[3]] + [];
  }

  lemma {:induction false} Pref4(a: Ask, p: nat, m: Mode)
    requires a == Ask4(a.frequencies) && p < 3
    requires SortedRanges(a.gaps, a.totalSize) && Wanted(a, p) && Wanted(a, 3)
    ensures PrefOf(a, m, p) < PrefOf(a, m, 3)
  {
    Gap4(a, p);
    Gap4(a, 3);
  }

  lemma {:induction false} State4(a: Ask, p: nat)
    requires a == Ask4(a.frequencies) && p < 4 && SortedRanges(Gaps4(), 4 * PART_SIZE)
    ensures if p < 3 then Exhausted(a, InFlight4(), p) else Free(a, InFlight4(), p)
  {
    var g, req := Gaps4(), InFlight4();
    Gap4(a, p);
    assert a.gaps == g && p in a.available;
    NextBlockExists(PartBounds(p, 4 * PART_SIZE), g, req);
    if p < 3 {
      assert g[p] in req;
    } else {
      var x := 3 * PART_SIZE;
      assert Meets(g[3], x) && !Requested(x, req);
    }
  }

  lemma {:induction false} InFlight4Ok(missing: set<int>)
    requires Lists(Gaps4(), missing, 4 * PART_SIZE)
    ensures Inv(missing, InFlight4())
  {
    InFlight4Whole(missing, 0);
    InFlight4Whole(missing, 1);
    InFlight4Whole(missing, 2);
  }

  lemma {:induction false} InFlight4Whole(missing: set<int>, i: nat)
    requires Lists(Gaps4(), missing, 4 * PART_SIZE) && i < 3
    ensures Whole(missing, Gaps4()[i])
  {
    GapEdges(Gaps4(), missing, 4 * PART_SIZE, i);
  }

  /** Within the registry invariant, with the counts of a peer that issued all ranges
      in flight, and the last of them in any of the three parts. */
  lemma {:induction false} ThreeTurnsWasted(missing: set<int>, frequencies: seq<int>, last: nat, turns: seq<Turn>)
    requires Lists(Gaps4(), missing, 4 * PART_SIZE) && last < 3
    requires SortedRanges(Gaps4(), 4 * PART_SIZE)
    requires Legal(Ask4(frequencies), InFlight4(), Some(last), turns) && Ended(Ask4(frequencies), turns, 3)
    ensures Inv(missing, InFlight4()) && CountsOthers(Ask4(frequencies), InFlight4() - InFlight4())
    ensures Free(Ask4(frequencies), InFlight4(), 3) && Blocks(turns) == []
  {
    var a, req := Ask4(frequencies), InFlight4();
    InFlight4Ok(missing);
    Gap4(a, 0);
    State4(a, 3);
    forall e | e in {0, 1, 2}
      ensures MustPrecede(a, req, Some(last), e)
    {
      State4(a, e);
      forall f, m | Free(a, req, f)
        ensures PrefOf(a, m, e) < PrefOf(a, m, f)
      {
        State4(a, f);
        Gap4(a, e);
        Pref4(a, e, m);
      }
    }
    NoBlockIsIssued(a, req, Some(last), turns, 3, {0, 1, 2});
  }
}
