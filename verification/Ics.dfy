/** Block selection inside one part (core/download/ics.py): trimming a block
    against the requests in flight, and the next block of a part. */
module Ics {
  import opened Base

  const PART_SIZE := 9_728_000
  const EMBLOCK_SIZE := 184_320

  /** Bytes lo..hi, both included. */
  datatype Range = Range(lo: int, hi: int)

  ghost predicate Requested(x: int, req: set<Range>) {
    exists r :: r in req && r.lo <= x <= r.hi
  }

  ghost function SetOf(ranges: seq<Range>): set<Range> {
    set r | r in ranges
  }

  // ----- what is left of a block -----

  ghost function FirstFree(lo: int, hi: int, req: set<Range>): (x: int)
    requires lo <= hi + 1
    ensures lo <= x <= hi + 1
    decreases hi + 1 - lo
  {
    if lo > hi || !Requested(lo, req) then lo else FirstFree(lo + 1, hi, req)
  }

  ghost function LastFree(lo: int, hi: int, req: set<Range>): (x: int)
    requires lo <= hi + 1
    ensures lo - 1 <= x <= hi
    decreases hi + 1 - lo
  {
    if lo > hi || !Requested(hi, req) then hi else LastFree(lo, hi - 1, req)
  }

  /** From the first to the last byte of start..end that nobody requested. */
  ghost function Shrink(start: int, end: int, req: set<Range>): Option<Range> {
    if end < start || FirstFree(start, end, req) > end then None
    else Some(Range(FirstFree(start, end, req), LastFree(start, end, req)))
  }

  lemma {:induction false} FirstFreeIs(lo: int, hi: int, req: set<Range>, a: int)
    requires lo <= a <= hi + 1 && (forall x :: lo <= x < a ==> Requested(x, req))
    requires a <= hi ==> !Requested(a, req)
    ensures FirstFree(lo, hi, req) == a
    decreases a - lo
  {
    if lo < a {
      FirstFreeIs(lo + 1, hi, req, a);
    }
  }

  lemma {:induction false} LastFreeIs(lo: int, hi: int, req: set<Range>, b: int)
    requires lo <= b <= hi && (forall x :: b < x <= hi ==> Requested(x, req)) && !Requested(b, req)
    ensures LastFree(lo, hi, req) == b
    decreases hi - b
  {
    if b < hi {
      LastFreeIs(lo, hi - 1, req, b);
    }
  }

  /** The two ends determine the result. */
  lemma {:induction false} ShrinkIs(start: int, end: int, req: set<Range>, a: int, b: int)
    requires start <= a <= b <= end && !Requested(a, req) && !Requested(b, req)
    requires forall x :: (start <= x < a || b < x <= end) ==> Requested(x, req)
    ensures Shrink(start, end, req) == Some(Range(a, b))
  {
    FirstFreeIs(start, end, req, a);
    LastFreeIs(start, end, req, b);
  }

  lemma {:induction false} ShrinkNothing(start: int, end: int, req: set<Range>)
    requires forall x :: start <= x <= end ==> Requested(x, req)
    ensures Shrink(start, end, req) == None
  {
    if start <= end {
      FirstFreeIs(start, end, req, end + 1);
    }
  }

  predicate Meets(r: Range, x: int) {
    r.lo <= x <= r.hi
  }

  predicate Clear(r: Range, lo: int, hi: int) {
    r.hi < lo || hi < r.lo || r.hi < r.lo
  }

  lemma {:induction false} IndexCount(s: set<nat>, n: nat)
    requires forall i :: i in s ==> i < n
    ensures |s| <= n
    decreases n
  {
    if n == 0 {
      assert s == {};
    } else {
      IndexCount(s - {n - 1}, n - 1);
      if n - 1 in s {
        assert |s| == |s - {n - 1}| + 1;
      } else {
        assert s - {n - 1} == s;
      }
    }
  }

  /** What is left of the candidate after some clips: everything outside it is
      requested, and every range that clipped it is clear of it. */
  ghost predicate CutDown(start: int, end: int, ranges: seq<Range>, curStart: int, curEnd: int, clipped: set<nat>) {
    && start <= curStart && curEnd <= end
    && (forall x :: start <= x <= end && (x < curStart || curEnd < x) ==> Requested(x, SetOf(ranges)))
    && (forall i :: i in clipped ==> i < |ranges| && Clear(ranges[i], curStart, curEnd))
  }

  lemma {:induction false} ClipStart(start: int, end: int, ranges: seq<Range>, curStart: int, curEnd: int, clipped: set<nat>, i: nat)
    requires CutDown(start, end, ranges, curStart, curEnd, clipped) && curStart <= curEnd
    requires i < |ranges| && Meets(ranges[i], curStart)
    ensures CutDown(start, end, ranges, ranges[i].hi + 1, curEnd, clipped + {i}) && |clipped + {i}| == |clipped| + 1
  {
    assert ranges[i] in SetOf(ranges) && i !in clipped;
  }

  lemma {:induction false} ClipEnd(start: int, end: int, ranges: seq<Range>, curStart: int, curEnd: int, clipped: set<nat>, i: nat)
    requires CutDown(start, end, ranges, curStart, curEnd, clipped) && curStart <= curEnd
    requires i < |ranges| && Meets(ranges[i], curEnd)
    ensures CutDown(start, end, ranges, curStart, ranges[i].lo - 1, clipped + {i}) && |clipped + {i}| == |clipped| + 1
  {
    assert ranges[i] in SetOf(ranges) && i !in clipped;
  }

  /** One pass over the ranges: the inner loop of `shrink_to_avoid`. */
  method ClipPass(start: int, end: int, ranges: seq<Range>, fromStart: int, fromEnd: int, ghost before: set<nat>)
    returns (left: bool, curStart: int, curEnd: int, changed: bool, ghost clipped: set<nat>)
    requires ranges != [] && CutDown(start, end, ranges, fromStart, fromEnd, before)
    ensures !left ==> Shrink(start, end, SetOf(ranges)) == None
    ensures left ==>
              && CutDown(start, end, ranges, curStart, curEnd, clipped)
              && |before| <= |clipped| && (changed ==> |before| < |clipped|)
    ensures left && !changed ==>
              && curStart <= curEnd
              && forall i :: 0 <= i < |ranges| ==> !Meets(ranges[i], curStart) && !Meets(ranges[i], curEnd)
  {
    ghost var req := SetOf(ranges);
    left, curStart, curEnd, changed, clipped := true, fromStart, fromEnd, false, before;
    var i := 0;
    while i < |ranges|
      invariant i <= |ranges| && left
      invariant CutDown(start, end, ranges, curStart, curEnd, clipped)
      invariant |before| <= |clipped| && (changed ==> |before| < |clipped|)
      invariant !changed ==> (i > 0 ==> curStart <= curEnd)
                             && forall j :: 0 <= j < i ==> !Meets(ranges[j], curStart) && !Meets(ranges[j], curEnd)
    {
      var range := ranges[i];
      assert range in req;
      if curEnd < curStart {
        ShrinkNothing(start, end, req);
        left := false;
        return;
      }
      if range.lo <= curStart && range.hi >= curEnd {
        ShrinkNothing(start, end, req);
        left := false;
        return;
      }
      if curStart >= range.lo && curStart <= range.hi {
        ClipStart(start, end, ranges, curStart, curEnd, clipped, i);
        clipped := clipped + {i};
        curStart := range.hi + 1;
        changed := true;
      } else if curEnd >= range.lo && curEnd <= range.hi {
        ClipEnd(start, end, ranges, curStart, curEnd, clipped, i);
        clipped := clipped + {i};
        curEnd := range.lo - 1;
        changed := true;
      }
      i := i + 1;
    }
  }

  /** `shrink_to_avoid`. Each range clips at most once, so the guard of one pass
      more than there are ranges is never what ends the loop. */
  method ShrinkToAvoid(start: int, end: int, ranges: seq<Range>) returns (r: Option<Range>)
    ensures r == Shrink(start, end, SetOf(ranges))
  {
    var curStart, curEnd := start, end;
    ghost var req := SetOf(ranges);
    if ranges == [] {
      if curEnd < curStart {
        return None;
      }
      ShrinkIs(start, end, req, start, end);
      return Some(Range(curStart, curEnd));
    }
    var changed, guard := true, 0;
    ghost var clipped: set<nat> := {};
    while changed && guard < |ranges| + 1
      invariant CutDown(start, end, ranges, curStart, curEnd, clipped)
      invariant guard <= |ranges| + 1 && (changed ==> guard <= |clipped|)
      invariant !changed ==> curStart <= curEnd
                             && forall i :: 0 <= i < |ranges| ==> !Meets(ranges[i], curStart) && !Meets(ranges[i], curEnd)
      decreases |ranges| + 1 - guard
    {
      guard := guard + 1;
      var left: bool;
      left, curStart, curEnd, changed, clipped := ClipPass(start, end, ranges, curStart, curEnd, clipped);
      if !left {
        return None;
      }
    }
    IndexCount(clipped, |ranges|);
    if curEnd < curStart {
      ShrinkNothing(start, end, req);
      return None;
    }
    ShrinkIs(start, end, req, curStart, curEnd);
    return Some(Range(curStart, curEnd));
  }

  // ----- the next block of a part -----

  function PartBounds(part: nat, totalSize: int): Range {
    Range(part * PART_SIZE, Min(part * PART_SIZE + PART_SIZE, totalSize) - 1)
  }

  /** Last byte of the block window of `start` in the part. */
  function WindowEnd(start: int, partStart: nat): int
    requires partStart <= start
  {
    partStart + ((start - partStart) / EMBLOCK_SIZE + 1) * EMBLOCK_SIZE - 1
  }

  /** The first window of start..limit with bytes to ask for. */
  ghost function FirstWindow(start: int, limit: int, partStart: nat, req: set<Range>): Option<Range>
    requires partStart <= start
    decreases limit - start
  {
    if start > limit then None
    else
      var end := Min(limit, WindowEnd(start, partStart));
      var block := Shrink(start, end, req);
      if block.Some? then block else FirstWindow(end + 1, limit, partStart, req)
  }

  ghost function NextBlock(bounds: Range, gaps: seq<Range>, req: set<Range>): Option<Range>
    requires bounds.lo >= 0
  {
    if gaps == [] then None
    else if gaps[0].hi < bounds.lo || gaps[0].lo > bounds.hi then NextBlock(bounds, gaps[1..], req)
    else
      var block := FirstWindow(Max(gaps[0].lo, bounds.lo), Min(gaps[0].hi, bounds.hi), bounds.lo, req);
      if block.Some? then block else NextBlock(bounds, gaps[1..], req)
  }

  /** `next_block_in_part` */
  method NextBlockInPart(part: nat, totalSize: int, gaps: seq<Range>, requested: seq<Range>) returns (r: Option<Range>)
    ensures r == NextBlock(PartBounds(part, totalSize), gaps, SetOf(requested))
  {
    var bounds := PartBounds(part, totalSize);
    ghost var req := SetOf(requested);
    var i := 0;
    while i < |gaps|
      invariant i <= |gaps|
      invariant NextBlock(bounds, gaps, req) == NextBlock(bounds, gaps[i..], req)
    {
      var gap := gaps[i];
      if gap.hi >= bounds.lo && gap.lo <= bounds.hi {
        var start, limit := Max(gap.lo, bounds.lo), Min(gap.hi, bounds.hi);
        ghost var first := FirstWindow(start, limit, bounds.lo, req);
        while start <= limit
          invariant bounds.lo <= start
          invariant first == FirstWindow(start, limit, bounds.lo, req)
          decreases limit - start
        {
          var end := Min(limit, WindowEnd(start, bounds.lo));
          var block := ShrinkToAvoid(start, end, requested);
          if block.Some? {
            return block;
          }
          start := end + 1;
        }
      }
      i := i + 1;
    }
    return None;
  }

  ghost predicate InRanges(gaps: seq<Range>, x: int) {
    exists i :: 0 <= i < |gaps| && Meets(gaps[i], x)
  }

  lemma {:induction false} FreeEnds(start: int, end: int, req: set<Range>)
    requires start <= end
    ensures forall x :: start <= x < FirstFree(start, end, req) || LastFree(start, end, req) < x <= end ==> Requested(x, req)
    ensures FirstFree(start, end, req) <= end ==>
              && !Requested(FirstFree(start, end, req), req) && !Requested(LastFree(start, end, req), req)
              && FirstFree(start, end, req) <= LastFree(start, end, req)
    decreases end - start
  {
    FirstRequested(start, end, req);
    LastRequested(start, end, req);
  }

  lemma {:induction false} FirstRequested(start: int, end: int, req: set<Range>)
    requires start <= end + 1
    ensures forall x :: start <= x < FirstFree(start, end, req) ==> Requested(x, req)
    ensures FirstFree(start, end, req) <= end ==> !Requested(FirstFree(start, end, req), req)
    decreases end + 1 - start
  {
    if start <= end && Requested(start, req) {
      FirstRequested(start + 1, end, req);
    }
  }

  lemma {:induction false} LastRequested(start: int, end: int, req: set<Range>)
    requires start <= end + 1
    ensures forall x :: LastFree(start, end, req) < x <= end ==> Requested(x, req)
    ensures LastFree(start, end, req) >= start ==> !Requested(LastFree(start, end, req), req)
    decreases end + 1 - start
  {
    if start <= end && Requested(end, req) {
      LastRequested(start, end - 1, req);
    }
  }

  /** What `shrink_to_avoid` leaves, for any requests: nothing exactly when every
      byte is requested, otherwise first to last free byte. */
  lemma {:induction false} ShrinkMeans(start: int, end: int, req: set<Range>)
    ensures Shrink(start, end, req).None? <==> forall x :: start <= x <= end ==> Requested(x, req)
    ensures var r := Shrink(start, end, req);
            r.Some? ==>
              && start <= r.value.lo <= r.value.hi <= end
              && !Requested(r.value.lo, req) && !Requested(r.value.hi, req)
              && forall x :: start <= x < r.value.lo || r.value.hi < x <= end ==> Requested(x, req)
  {
    if start <= end {
      FreeEnds(start, end, req);
    }
  }

  /** Exactly when what is left of a block overlaps no request: when no requested byte
      of it lies between two that nobody requested. */
  lemma {:induction false} ShrinkClearIff(start: int, end: int, req: set<Range>)
    requires Shrink(start, end, req).Some?
    ensures (forall x :: Meets(Shrink(start, end, req).value, x) ==> !Requested(x, req))
            <==> !exists a, x, b :: start <= a < x < b <= end && !Requested(a, req) && Requested(x, req) && !Requested(b, req)
  {
    ShrinkMeans(start, end, req);
    var r := Shrink(start, end, req).value;
    if x :| Meets(r, x) && Requested(x, req) {
      assert start <= r.lo < x < r.hi <= end;
    }
  }

  lemma {:induction false} WindowsMean(start: int, limit: int, partStart: nat, req: set<Range>)
    requires partStart <= start
    ensures FirstWindow(start, limit, partStart, req).None? <==> forall x :: start <= x <= limit ==> Requested(x, req)
    decreases limit - start
  {
    if start <= limit {
      var end := Min(limit, WindowEnd(start, partStart));
      ShrinkMeans(start, end, req);
      WindowsMean(end + 1, limit, partStart, req);
    }
  }

  predicate SameBlock(partStart: int, x: int, y: int)
  {
    (x - partStart) / 184_320 == (y - partStart) / 184_320
  }

  /** Bytes a to b are all missing. */
  ghost predicate Run(gaps: seq<Range>, a: int, b: int) {
    forall x :: a <= x <= b ==> InRanges(gaps, x)
  }

  lemma {:induction false} InWindow(start: int, partStart: nat, lo: int, x: int)
    requires partStart <= start <= lo <= WindowEnd(start, partStart) && lo <= x
    ensures x <= WindowEnd(start, partStart) <==> SameBlock(partStart, lo, x)
  {
  }

  /** The block of a byte of the window lies in the window. */
  lemma {:induction false} WindowIsBlock(start: int, partStart: nat, lo: int)
    requires partStart <= start <= lo <= WindowEnd(start, partStart)
    ensures forall x :: lo <= x ==> (x <= WindowEnd(start, partStart) <==> SameBlock(partStart, lo, x))
  {
    forall x | lo <= x
      ensures x <= WindowEnd(start, partStart) <==> SameBlock(partStart, lo, x)
    {
      InWindow(start, partStart, lo, x);
    }
  }

  /** What the first window with something left gives: from the first free byte to the
      last one of its window. */
  lemma {:induction false} FirstWindowMeans(start: int, limit: int, partStart: nat, req: set<Range>, b: Range)
    requires partStart <= start && FirstWindow(start, limit, partStart, req) == Some(b)
    ensures start <= b.lo <= b.hi <= limit && SameBlock(partStart, b.lo, b.hi)
    ensures !Requested(b.lo, req) && !Requested(b.hi, req)
    ensures forall x :: start <= x < b.lo ==> Requested(x, req)
    ensures forall x :: b.hi < x <= limit && SameBlock(partStart, b.lo, x) ==> Requested(x, req)
    decreases limit - start
  {
    var end := Min(limit, WindowEnd(start, partStart));
    ShrinkMeans(start, end, req);
    if Shrink(start, end, req).None? {
      FirstWindowMeans(end + 1, limit, partStart, req, b);
    } else {
      WindowIsBlock(start, partStart, b.lo);
    }
  }

  /** A part has no next block exactly when every missing byte of it is requested. */
  lemma {:induction false} NextBlockExists(bounds: Range, gaps: seq<Range>, req: set<Range>)
    requires bounds.lo >= 0
    ensures NextBlock(bounds, gaps, req).None?
            <==> forall x :: Meets(bounds, x) && InRanges(gaps, x) ==> Requested(x, req)
    decreases |gaps|
  {
    if gaps != [] {
      NextBlockExists(bounds, gaps[1..], req);
      var start, limit := Max(gaps[0].lo, bounds.lo), Min(gaps[0].hi, bounds.hi);
      WindowsMean(start, limit, bounds.lo, req);
      forall x
        ensures InRanges(gaps, x) <==> Meets(gaps[0], x) || InRanges(gaps[1..], x)
      {
        FirstRange(gaps, x);
      }
    }
  }

  lemma {:induction false} FirstRange(gaps: seq<Range>, x: int)
    requires gaps != []
    ensures InRanges(gaps, x) <==> Meets(gaps[0], x) || InRanges(gaps[1..], x)
  {
    if InRanges(gaps[1..], x) {
      var i :| 0 <= i < |gaps[1..]| && Meets(gaps[1..][i], x);
      assert Meets(gaps[i + 1], x);
    }
    if InRanges(gaps, x) && !Meets(gaps[0], x) {
      var i :| 0 <= i < |gaps| && Meets(gaps[i], x);
      assert Meets(gaps[1..][i - 1], x);
    }
  }
}
