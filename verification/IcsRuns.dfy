/** Exactly when `select_blocks` issues a block whatever the random pick takes. Which
    parts come first depends on the mode, which follows from the parts left; here it
    stays the same while exhausted parts go. */
module IcsRuns {
  import opened Base
  import opened Ics
  import opened IcsSelect
  import opened IcsBlocks

  /** The mode stays m whichever exhausted parts are gone. */
  ghost predicate FixedMode(a: Ask, req: set<Range>, m: Mode) {
    forall gone: set<int> :: (forall p :: p in gone ==> Exhausted(a, req, p)) ==> ModeLeft(a, gone) == m
  }

  /** It does when no missing part has fewer sources than some free one. */
  lemma {:induction false} ScarcestIsFree(a: Ask, req: set<Range>, f: int)
    requires Free(a, req, f) && 0 <= f < |a.frequencies|
    requires forall p :: Wanted(a, p) && 0 <= p < |a.frequencies| ==> a.frequencies[f] <= a.frequencies[p]
    ensures FixedMode(a, req, ModeLeft(a, {}))
  {
    forall gone: set<int> | forall p :: p in gone ==> Exhausted(a, req, p)
      ensures ModeLeft(a, gone) == ModeLeft(a, {})
    {
      LeastDecides(a, gone, f);
      LeastDecides(a, {}, f);
    }
  }

  lemma {:induction false} LeastDecides(a: Ask, gone: set<int>, f: int)
    requires Wanted(a, f) && f !in gone && 0 <= f < |a.frequencies|
    requires forall p :: Wanted(a, p) && 0 <= p < |a.frequencies| ==> a.frequencies[f] <= a.frequencies[p]
    ensures ModeLeft(a, gone)
            == if a.frequencies[f] <= 10 then Release else if a.frequencies[f] <= 25 then Spread else Share
  {
    var parts := set p | 0 <= p < PartCount(a.totalSize) && Wanted(a, p) && p !in gone;
    ScarcestDecides(a.frequencies, parts, f);
  }

  /** An exhausted candidate that a run can take before every free one: the sticky
      part, or one that no free part precedes. */
  ghost predicate Early(a: Ask, req: set<Range>, lastPart: Option<int>, m: Mode, e: int)
    requires SortedRanges(a.gaps, a.totalSize)
  {
    Exhausted(a, req, e) && (lastPart == Some(e) || forall f :: Free(a, req, f) ==> PrefOf(a, m, e) <= PrefOf(a, m, f))
  }

  ghost function EarlyParts(a: Ask, req: set<Range>, lastPart: Option<int>, m: Mode): set<int>
    requires SortedRanges(a.gaps, a.totalSize)
  {
    set e | 0 <= e < PartCount(a.totalSize) && Early(a, req, lastPart, m, e)
  }

  // ----- a run that issues nothing takes early parts only -----

  lemma {:induction false} EarlyTurn(a: Ask, req: set<Range>, lastPart: Option<int>, m: Mode, init: seq<Turn>, t: Turn)
    requires SortedRanges(a.gaps, a.totalSize) && FixedMode(a, req, m)
    requires AllExhausted(a, req, init) && TurnOk(a, req, lastPart, init, t) && Exhausted(a, req, t.part)
    ensures Early(a, req, lastPart, m, t.part)
  {
    assert ModeLeft(a, Gone(init)) == m;
    if lastPart != Some(t.part) {
      var last := LastOf(lastPart, init);
      assert !(last.Some? && Candidate(a, Gone(init), last.value));
      forall f | Free(a, req, f)
        ensures PrefOf(a, m, t.part) <= PrefOf(a, m, f)
      {
        assert Candidate(a, Gone(init), f);
      }
    }
  }

  lemma {:induction false} OnlyEarlyGone(a: Ask, req: set<Range>, lastPart: Option<int>, m: Mode, turns: seq<Turn>)
    requires SortedRanges(a.gaps, a.totalSize) && FixedMode(a, req, m)
    requires Legal(a, req, lastPart, turns) && Blocks(turns) == []
    ensures Gone(turns) <= EarlyParts(a, req, lastPart, m)
    decreases |turns|
  {
    if turns != [] {
      var init, t := SplitLast(turns);
      LastTurn(a, req, lastPart, turns, init, t);
      LastIssuesNothing(turns, init, t);
      OnlyEarlyGone(a, req, lastPart, m, init);
      NothingIssued(a, req, lastPart, init);
      NothingIssued(a, req, lastPart, turns);
      EarlyTurn(a, req, lastPart, m, init, t);
    }
  }

  // ----- early parts can be taken one after the other -----

  /** Of the exhausted candidates below n that are left, and e, one of least
      preference value. */
  lemma {:induction false} LeastLeft(a: Ask, req: set<Range>, gone: set<int>, m: Mode, e: int, n: nat) returns (p: int)
    requires SortedRanges(a.gaps, a.totalSize) && Exhausted(a, req, e) && e !in gone
    ensures Exhausted(a, req, p) && p !in gone && PrefOf(a, m, p) <= PrefOf(a, m, e)
    ensures forall q :: 0 <= q < n && Exhausted(a, req, q) && q !in gone ==> PrefOf(a, m, p) <= PrefOf(a, m, q)
  {
    p := e;
    if n > 0 {
      p := LeastLeft(a, req, gone, m, e, n - 1);
      if Exhausted(a, req, n - 1) && n - 1 !in gone && PrefOf(a, m, n - 1) < PrefOf(a, m, p) {
        p := n - 1;
      }
    }
  }

  /** With an early part left, the next turn can go to an exhausted one. */
  lemma {:induction false} NextEarlyTurn(a: Ask, req: set<Range>, lastPart: Option<int>, m: Mode, init: seq<Turn>, e: int)
    returns (t: Turn)
    requires SortedRanges(a.gaps, a.totalSize) && FixedMode(a, req, m)
    requires Legal(a, req, lastPart, init) && AllExhausted(a, req, init)
    requires Early(a, req, lastPart, m, e) && e !in Gone(init)
    requires lastPart.Some? ==> !Free(a, req, lastPart.value)
    ensures TurnOk(a, req, lastPart, init, t) && t.block == None
  {
    var gone := Gone(init);
    assert req + SetOf([]) == req && ModeLeft(a, gone) == m;
    if init == [] && lastPart.Some? && Candidate(a, gone, lastPart.value) {
      t := Turn(lastPart.value, None);
    } else {
      StickyGone(a, req, lastPart, init, e);
      var p := LeastLeft(a, req, gone, m, e, PartCount(a.totalSize));
      t := Turn(p, None);
      forall q | Candidate(a, gone, q)
        ensures PrefOf(a, m, p) <= PrefOf(a, m, q)
      {
        assert Free(a, req, q) || Exhausted(a, req, q);
      }
    }
  }

  /** After the first turn the sticky part is gone, if it was a candidate. */
  lemma {:induction false} StickyGone(a: Ask, req: set<Range>, lastPart: Option<int>, init: seq<Turn>, e: int)
    requires SortedRanges(a.gaps, a.totalSize) && Legal(a, req, lastPart, init) && AllExhausted(a, req, init)
    requires Exhausted(a, req, e) && e !in Gone(init)
    ensures init != [] ==> lastPart != Some(e)
  {
    if init != [] {
      assert TurnOk(a, req, lastPart, init[..0], init[0]);
      TurnPicks(a, req, lastPart, init[..0], init[0], e);
    }
  }

  lemma {:induction false} EarlyRun(a: Ask, req: set<Range>, lastPart: Option<int>, m: Mode, k: nat) returns (turns: seq<Turn>)
    requires SortedRanges(a.gaps, a.totalSize) && FixedMode(a, req, m)
    requires k <= |EarlyParts(a, req, lastPart, m)|
    requires lastPart.Some? ==> !Free(a, req, lastPart.value)
    ensures Legal(a, req, lastPart, turns) && AllExhausted(a, req, turns) && |turns| == k
  {
    turns := [];
    if k > 0 {
      var init := EarlyRun(a, req, lastPart, m, k - 1);
      var e := OneLeft(EarlyParts(a, req, lastPart, m), Gone(init));
      var t := NextEarlyTurn(a, req, lastPart, m, init, e);
      TurnsAppend(a, req, lastPart, init, t);
      turns := init + [t];
      NothingIssued(a, req, lastPart, turns);
    }
  }

  lemma {:induction false} SameSize(small: set<int>, large: set<int>)
    requires small <= large && |small| == |large|
    ensures small == large
  {
    assert large == small + (large - small);
  }

  // ----- exactly when -----

  ghost predicate AlwaysIssues(a: Ask, req: set<Range>, lastPart: Option<int>, maxBlocks: nat)
    requires SortedRanges(a.gaps, a.totalSize)
  {
    forall turns :: Legal(a, req, lastPart, turns) && Ended(a, turns, maxBlocks) ==> Blocks(turns) != []
  }

  ghost predicate HasFree(a: Ask, req: set<Range>) {
    exists f :: Free(a, req, f)
  }

  ghost predicate StickyIsFree(a: Ask, req: set<Range>, lastPart: Option<int>) {
    lastPart.Some? && Free(a, req, lastPart.value)
  }

  lemma {:induction false} FewEarlyIssue(a: Ask, req: set<Range>, lastPart: Option<int>, m: Mode, turns: seq<Turn>, maxBlocks: nat)
    requires SortedRanges(a.gaps, a.totalSize) && FixedMode(a, req, m) && HasFree(a, req)
    requires Legal(a, req, lastPart, turns) && Ended(a, turns, maxBlocks)
    requires |EarlyParts(a, req, lastPart, m)| < maxBlocks
    ensures Blocks(turns) != []
  {
    if Blocks(turns) == [] {
      NothingIssuedMeans(a, req, lastPart, turns, maxBlocks);
      OnlyEarlyGone(a, req, lastPart, m, turns);
      SubsetSize(Gone(turns), EarlyParts(a, req, lastPart, m));
    }
  }

  /** A run that issues nothing, where there is one. */
  lemma {:induction false} IdleRun(a: Ask, req: set<Range>, lastPart: Option<int>, m: Mode, maxBlocks: nat) returns (turns: seq<Turn>)
    requires SortedRanges(a.gaps, a.totalSize) && FixedMode(a, req, m) && !StickyIsFree(a, req, lastPart)
    requires HasFree(a, req) ==> maxBlocks <= |EarlyParts(a, req, lastPart, m)|
    ensures Legal(a, req, lastPart, turns) && Ended(a, turns, maxBlocks) && Blocks(turns) == []
  {
    var early := EarlyParts(a, req, lastPart, m);
    turns := EarlyRun(a, req, lastPart, m, if maxBlocks <= |early| then maxBlocks else |early|);
    if |turns| < maxBlocks {
      OnlyEarlyGone(a, req, lastPart, m, turns);
      SameSize(Gone(turns), early);
      NoneLeft(a, req, lastPart, m, Gone(turns));
    }
  }

  lemma {:induction false} NoneLeft(a: Ask, req: set<Range>, lastPart: Option<int>, m: Mode, gone: set<int>)
    requires SortedRanges(a.gaps, a.totalSize) && !HasFree(a, req) && EarlyParts(a, req, lastPart, m) <= gone
    ensures forall p :: !Candidate(a, gone, p)
  {
    forall p
      ensures !Candidate(a, gone, p)
    {
      assert !Free(a, req, p);
      assert Exhausted(a, req, p) ==> Early(a, req, lastPart, m, p);
    }
  }

  /** A block is issued in every run if and only if there is a turn and a part with a
      free byte, and either the sticky part has one or fewer exhausted parts than
      turns can be taken before the free ones. */
  lemma {:induction false} AlwaysIssuesIff(a: Ask, req: set<Range>, lastPart: Option<int>, m: Mode, maxBlocks: nat)
    requires SortedRanges(a.gaps, a.totalSize) && FixedMode(a, req, m)
    ensures AlwaysIssues(a, req, lastPart, maxBlocks)
            <==> maxBlocks > 0 && HasFree(a, req)
                 && (StickyIsFree(a, req, lastPart) || |EarlyParts(a, req, lastPart, m)| < maxBlocks)
  {
    if maxBlocks == 0 {
      var none: seq<Turn> := [];
      assert Blocks(none) == [] && Legal(a, req, lastPart, none) && Ended(a, none, 0);
    } else if StickyIsFree(a, req, lastPart) {
      forall turns | Legal(a, req, lastPart, turns) && Ended(a, turns, maxBlocks)
        ensures Blocks(turns) != []
      {
        StickyIsIssued(a, req, lastPart, turns, maxBlocks);
      }
    } else if HasFree(a, req) && |EarlyParts(a, req, lastPart, m)| < maxBlocks {
      forall turns | Legal(a, req, lastPart, turns) && Ended(a, turns, maxBlocks)
        ensures Blocks(turns) != []
      {
        FewEarlyIssue(a, req, lastPart, m, turns, maxBlocks);
      }
    } else {
      var turns := IdleRun(a, req, lastPart, m, maxBlocks);
      assert Legal(a, req, lastPart, turns) && Blocks(turns) == [];
    }
  }

  // ----- in bytes of the file -----

  lemma {:induction false} GapHasByte(gaps: seq<Range>, bounds: Range, x: int)
    requires InRanges(gaps, x) && Meets(bounds, x)
    ensures PartGap(gaps, bounds) > 0
    decreases |gaps|
  {
    FirstRange(gaps, x);
    if !Meets(gaps[0], x) {
      GapHasByte(gaps[1..], bounds, x);
    }
  }

  /** The parts cover the file: every missing byte lies in a part that is wanted for it. */
  lemma {:induction false} EveryMissingByteIsWanted(a: Ask, x: int)
    requires SortedRanges(a.gaps, a.totalSize) && InRanges(a.gaps, x)
    ensures x >= 0 && Wanted(a, x / 9_728_000) && Meets(PartBounds(x / 9_728_000, a.totalSize), x)
  {
    var p := x / PART_SIZE;
    assert p * PART_SIZE <= x < p * PART_SIZE + PART_SIZE && x < a.totalSize;
    assert p < CeilDiv(a.totalSize, PART_SIZE);
    GapHasByte(a.gaps, PartBounds(p, a.totalSize), x);
  }

  /** There is a candidate with a free byte if and only if some missing byte of an
      available part has not been requested. */
  lemma {:induction false} HasFreeIff(a: Ask, req: set<Range>)
    requires SortedRanges(a.gaps, a.totalSize)
    ensures HasFree(a, req) <==> exists x :: InRanges(a.gaps, x) && x / 9_728_000 in a.available && !Requested(x, req)
  {
    if x :| InRanges(a.gaps, x) && x / 9_728_000 in a.available && !Requested(x, req) {
      EveryMissingByteIsWanted(a, x);
      NextBlockExists(PartBounds(x / PART_SIZE, a.totalSize), a.gaps, req);
      assert Free(a, req, x / PART_SIZE);
    }
    if f :| Free(a, req, f) {
      NextBlockExists(PartBounds(f, a.totalSize), a.gaps, req);
      var x :| Meets(PartBounds(f, a.totalSize), x) && InRanges(a.gaps, x) && !Requested(x, req);
      assert x / PART_SIZE == f;
    }
  }
}
