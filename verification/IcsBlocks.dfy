/** The blocks of one request (`select_blocks` in core/download/ics.py): every
    turn chooses a part and takes its next block, or finds it exhausted. */
module IcsBlocks {
  import opened Base
  import opened Ics
  import opened IcsSelect

  // ----- the missing bytes of a part -----

  function PartCount(totalSize: int): nat {
    if totalSize <= 0 then 1 else Max(1, CeilDiv(totalSize, PART_SIZE))
  }

  /** Gaps as the runner hands them over: sorted, inside the file, apart. */
  ghost predicate SortedRanges(gaps: seq<Range>, totalSize: int) {
    && (forall i :: 0 <= i < |gaps| ==> 0 <= gaps[i].lo <= gaps[i].hi < totalSize)
    && (forall i, j :: 0 <= i < j < |gaps| ==> gaps[i].hi + 1 < gaps[j].lo)
  }

  function Overlap(gap: Range, bounds: Range): nat {
    var lo, hi := Max(gap.lo, bounds.lo), Min(gap.hi, bounds.hi);
    if hi >= lo then hi - lo + 1 else 0
  }

  /** Missing bytes of a part. */
  function PartGap(gaps: seq<Range>, bounds: Range): nat {
    if gaps == [] then 0 else Overlap(gaps[0], bounds) + PartGap(gaps[1..], bounds)
  }

  lemma {:induction false} PartGapFits(gaps: seq<Range>, totalSize: int, bounds: Range, from: int)
    requires SortedRanges(gaps, totalSize) && bounds.lo <= from <= bounds.hi + 1
    requires gaps != [] ==> from <= gaps[0].lo || from == bounds.lo
    ensures PartGap(gaps, bounds) <= bounds.hi + 1 - from
    decreases |gaps|
  {
    if gaps != [] {
      var next := Max(from, Min(gaps[0].hi, bounds.hi) + 1);
      if |gaps| > 1 {
        assert gaps[1..][0] == gaps[1] && gaps[0].hi + 1 < gaps[1].lo;
      }
      PartGapFits(gaps[1..], totalSize, bounds, next);
    }
  }

  ghost predicate Ascending(parts: seq<int>) {
    forall i, j :: 0 <= i < j < |parts| ==> parts[i] < parts[j]
  }

  /** `list.remove` */
  function RemoveFirst(parts: seq<int>, p: int): seq<int> {
    if parts == [] then [] else if parts[0] == p then parts[1..] else [parts[0]] + RemoveFirst(parts[1..], p)
  }

  lemma {:induction false} AscendingTail(parts: seq<int>)
    requires Ascending(parts) && parts != []
    ensures Ascending(parts[1..])
    ensures forall q :: q in parts <==> q == parts[0] || q in parts[1..]
    ensures forall q :: q in parts[1..] ==> parts[0] < q
  {
    assert parts == [parts[0]] + parts[1..];
  }

  lemma {:induction false} AscendingCons(x: int, rest: seq<int>)
    requires Ascending(rest) && forall q :: q in rest ==> x < q
    ensures Ascending([x] + rest) && forall q :: q in [x] + rest <==> q == x || q in rest
  {
    assert forall i :: 0 <= i < |rest| ==> rest[i] in rest;
  }

  lemma {:induction false} AscendingSnoc(parts: seq<int>, x: int)
    requires Ascending(parts) && forall q :: q in parts ==> q < x
    ensures Ascending(parts + [x])
  {
    assert forall i :: 0 <= i < |parts| ==> parts[i] in parts;
  }

  lemma {:induction false} RemoveFirstKeeps(parts: seq<int>, p: int)
    requires Ascending(parts)
    ensures Ascending(RemoveFirst(parts, p))
    ensures forall q :: q in RemoveFirst(parts, p) <==> q in parts && q != p
  {
    if parts != [] {
      AscendingTail(parts);
      if parts[0] != p {
        RemoveFirstKeeps(parts[1..], p);
        AscendingCons(parts[0], RemoveFirst(parts[1..], p));
      }
    }
  }

  /** Per-part gap sizes, as `select_blocks` computes them. */
  method GapSizes(totalSize: int, gaps: seq<Range>) returns (gapParts: seq<int>, gapSizes: map<int, nat>)
    requires SortedRanges(gaps, totalSize)
    ensures Ascending(gapParts) && forall p :: p in gapParts <==> p in gapSizes
    ensures forall p :: p in gapSizes <==> 0 <= p < PartCount(totalSize) && PartGap(gaps, PartBounds(p, totalSize)) > 0
    ensures forall p :: p in gapSizes ==> 0 < gapSizes[p] == PartGap(gaps, PartBounds(p, totalSize)) <= PART_SIZE
  {
    gapParts, gapSizes := [], map[];
    var p := 0;
    while p < PartCount(totalSize)
      invariant 0 <= p <= PartCount(totalSize)
      invariant Ascending(gapParts) && forall q :: q in gapParts <==> q in gapSizes && q < p
      invariant forall q :: q in gapSizes <==> 0 <= q < p && PartGap(gaps, PartBounds(q, totalSize)) > 0
      invariant forall q :: q in gapSizes ==> 0 < gapSizes[q] == PartGap(gaps, PartBounds(q, totalSize)) <= PART_SIZE
    {
      var bounds := PartBounds(p, totalSize);
      if bounds.hi >= bounds.lo {
        var partGap, i := 0, 0;
        while i < |gaps|
          invariant 0 <= i <= |gaps| && partGap + PartGap(gaps[i..], bounds) == PartGap(gaps, bounds)
        {
          partGap := partGap + Overlap(gaps[i], bounds);
          i := i + 1;
        }
        PartGapFits(gaps, totalSize, bounds, bounds.lo);
        if partGap > 0 {
          AscendingSnoc(gapParts, p);
          gapParts := gapParts + [p];
          gapSizes := gapSizes[p := partGap];
        }
      } else {
        NoGap(gaps, bounds);
      }
      p := p + 1;
    }
  }

  lemma {:induction false} NoGap(gaps: seq<Range>, bounds: Range)
    requires bounds.hi < bounds.lo
    ensures PartGap(gaps, bounds) == 0
    decreases |gaps|
  {
    if gaps != [] {
      NoGap(gaps[1..], bounds);
    }
  }

  // ----- the next block, in bytes -----

  /** What the next block of a part is to be: from the first missing byte that nobody
      requested to the last such byte that is missing in one run with it and lies in
      the same block of 184,320 bytes. */
  ghost predicate IsNext(bounds: Range, gaps: seq<Range>, req: set<Range>, b: Range) {
    && bounds.lo <= b.lo <= b.hi <= bounds.hi && SameBlock(bounds.lo, b.lo, b.hi) && Run(gaps, b.lo, b.hi)
    && !Requested(b.lo, req) && !Requested(b.hi, req)
    && (forall x :: bounds.lo <= x < b.lo && InRanges(gaps, x) ==> Requested(x, req))
    && (forall x :: b.hi < x <= bounds.hi && Run(gaps, b.lo, x) && SameBlock(bounds.lo, b.lo, x) ==> Requested(x, req))
  }

  lemma {:induction false} RunInGap(gaps: seq<Range>, totalSize: int, a: int, b: int)
    requires SortedRanges(gaps, totalSize) && gaps != [] && Meets(gaps[0], a) && a <= b && Run(gaps, a, b)
    ensures b <= gaps[0].hi
  {
    BehindFirst(gaps, totalSize, gaps[0].hi + 1);
  }

  lemma {:induction false} BehindFirst(gaps: seq<Range>, totalSize: int, x: int)
    requires SortedRanges(gaps, totalSize) && gaps != []
    ensures SortedRanges(gaps[1..], totalSize)
    ensures InRanges(gaps, x) <==> Meets(gaps[0], x) || InRanges(gaps[1..], x)
    ensures InRanges(gaps[1..], x) ==> gaps[0].hi + 1 < x
  {
    FirstRange(gaps, x);
    if InRanges(gaps[1..], x) {
      var i :| 0 <= i < |gaps[1..]| && Meets(gaps[1..][i], x);
      assert gaps[1..][i] == gaps[i + 1];
    }
  }

  /** In the first gap, and before what lies behind it. */
  lemma {:induction false} NextInFirstGap(part: nat, totalSize: int, gaps: seq<Range>, req: set<Range>, b: Range)
    requires SortedRanges(gaps, totalSize) && gaps != []
    requires var bounds := PartBounds(part, totalSize);
             FirstWindow(Max(gaps[0].lo, bounds.lo), Min(gaps[0].hi, bounds.hi), bounds.lo, req) == Some(b)
    ensures IsNext(PartBounds(part, totalSize), gaps, req, b)
  {
    var bounds := PartBounds(part, totalSize);
    FirstWindowMeans(Max(gaps[0].lo, bounds.lo), Min(gaps[0].hi, bounds.hi), bounds.lo, req, b);
    forall x | bounds.lo <= x < b.lo && InRanges(gaps, x)
      ensures Requested(x, req)
    {
      BehindFirst(gaps, totalSize, x);
    }
    forall x | b.hi < x <= bounds.hi && Run(gaps, b.lo, x) && SameBlock(bounds.lo, b.lo, x)
      ensures Requested(x, req)
    {
      RunInGap(gaps, totalSize, b.lo, x);
    }
  }

  lemma {:induction false} NextBehindFirst(bounds: Range, totalSize: int, gaps: seq<Range>, req: set<Range>, b: Range)
    requires SortedRanges(gaps, totalSize) && gaps != [] && IsNext(bounds, gaps[1..], req, b)
    requires forall x :: Meets(bounds, x) && Meets(gaps[0], x) ==> Requested(x, req)
    ensures IsNext(bounds, gaps, req, b)
  {
    forall x
      ensures InRanges(gaps, x) <==> Meets(gaps[0], x) || InRanges(gaps[1..], x)
      ensures InRanges(gaps[1..], x) ==> gaps[0].hi + 1 < x
    {
      BehindFirst(gaps, totalSize, x);
    }
    assert InRanges(gaps[1..], b.lo);
    assert forall x :: Run(gaps, b.lo, x) ==> Run(gaps[1..], b.lo, x);
  }

  lemma {:induction false} NextBlockMeans(part: nat, totalSize: int, gaps: seq<Range>, req: set<Range>, b: Range)
    requires SortedRanges(gaps, totalSize) && NextBlock(PartBounds(part, totalSize), gaps, req) == Some(b)
    ensures IsNext(PartBounds(part, totalSize), gaps, req, b)
    decreases |gaps|
  {
    var bounds := PartBounds(part, totalSize);
    var start, limit := Max(gaps[0].lo, bounds.lo), Min(gaps[0].hi, bounds.hi);
    if gaps[0].hi >= bounds.lo && gaps[0].lo <= bounds.hi && FirstWindow(start, limit, bounds.lo, req).Some? {
      NextInFirstGap(part, totalSize, gaps, req, b);
    } else {
      BehindFirst(gaps, totalSize, 0);
      NextBlockMeans(part, totalSize, gaps[1..], req, b);
      WindowsMean(start, limit, bounds.lo, req);
      NextBehindFirst(bounds, totalSize, gaps, req, b);
    }
  }

  // ----- turns -----

  /** What a peer asks with. */
  datatype Ask = Ask(totalSize: int, gaps: seq<Range>, available: set<int>, frequencies: seq<int>,
                     downloading: map<int, nat>)

  /** One turn: the part chosen, and its next block if it had one. */
  datatype Turn = Turn(part: int, block: Option<Range>)

  function GapSize(a: Ask, p: nat): nat {
    PartGap(a.gaps, PartBounds(p, a.totalSize))
  }

  /** A part with missing bytes. */
  predicate Wanted(a: Ask, p: int) {
    0 <= p < PartCount(a.totalSize) && GapSize(a, p) > 0
  }

  lemma {:induction false} GapFits(a: Ask, p: int)
    requires SortedRanges(a.gaps, a.totalSize) && Wanted(a, p)
    ensures 0 < GapSize(a, p) <= PART_SIZE
  {
    var bounds := PartBounds(p, a.totalSize);
    if bounds.hi < bounds.lo {
      NoGap(a.gaps, bounds);
    } else {
      PartGapFits(a.gaps, a.totalSize, bounds, bounds.lo);
    }
  }

  /** Parts found exhausted, blocks issued, and the part chosen last. */
  ghost function Gone(turns: seq<Turn>): set<int> {
    if turns == [] then {}
    else
      var last := |turns| - 1;
      Gone(turns[..last]) + if turns[last].block.None? then {turns[last].part} else {}
  }

  function Blocks(turns: seq<Turn>): seq<Range> {
    if turns == [] then []
    else
      var last := |turns| - 1;
      Blocks(turns[..last]) + if turns[last].block.None? then [] else [turns[last].block.value]
  }

  function LastOf(lastPart: Option<int>, turns: seq<Turn>): Option<int> {
    if turns == [] then lastPart else Some(turns[|turns| - 1].part)
  }

  /** A candidate, once the given parts were found exhausted. */
  predicate Candidate(a: Ask, gone: set<int>, p: int) {
    Wanted(a, p) && p in a.available && p !in gone
  }

  /** Preference value of a part in a given mode: the lower, the earlier. */
  function PrefOf(a: Ask, mode: Mode, p: int): nat
    requires SortedRanges(a.gaps, a.totalSize) && Wanted(a, p)
  {
    GapFits(a, p);
    CPref(mode, PART_SIZE - GapSize(a, p), if p in a.downloading then a.downloading[p] else 0, GapSize(a, p))
  }

  ghost function ModeLeft(a: Ask, gone: set<int>): Mode {
    ModeFor(a.frequencies, set p | 0 <= p < PartCount(a.totalSize) && Wanted(a, p) && p !in gone)
  }

  /** The sticky part if it is a candidate, otherwise one of least preference value. */
  ghost predicate Chosen(a: Ask, gone: set<int>, last: Option<int>, p: int)
    requires SortedRanges(a.gaps, a.totalSize)
  {
    && Candidate(a, gone, p)
    && (last.Some? && Candidate(a, gone, last.value) ==> last == Some(p))
    && (!(last.Some? && Candidate(a, gone, last.value)) ==>
          forall q :: Candidate(a, gone, q) ==> PrefOf(a, ModeLeft(a, gone), p) <= PrefOf(a, ModeLeft(a, gone), q))
  }

  /** What a choice decides on, once the given parts were found exhausted. */
  ghost function ViewOf(a: Ask, gone: set<int>): View {
    View(a.available, a.frequencies, (set p | 0 <= p < PartCount(a.totalSize) && Wanted(a, p) && p !in gone),
         (map p | 0 <= p < PartCount(a.totalSize) && Wanted(a, p) && p !in gone :: GapSize(a, p)), a.downloading)
  }

  lemma {:induction false} ViewFits(a: Ask, gone: set<int>)
    requires SortedRanges(a.gaps, a.totalSize)
    ensures GapSizesFit(ViewOf(a, gone))
    ensures forall p :: IsCandidate(ViewOf(a, gone), p) <==> Wanted(a, p) && p in a.available && p !in gone
  {
    forall p | Wanted(a, p)
      ensures GapSize(a, p) <= PART_SIZE
    {
      GapFits(a, p);
    }
  }

  /** Chosen is what `choose_part` does with what is left. */
  lemma {:induction false} ChosenIsChoice(a: Ask, gone: set<int>, last: Option<int>, p: int)
    requires SortedRanges(a.gaps, a.totalSize)
    ensures GapSizesFit(ViewOf(a, gone))
    ensures Chosen(a, gone, last, p) <==> IsChoice(ViewOf(a, gone), last, Some(p))
  {
    var v, m := ViewOf(a, gone), ModeLeft(a, gone);
    ViewFits(a, gone);
    assert v.gapParts == set q | 0 <= q < PartCount(a.totalSize) && Wanted(a, q) && q !in gone;
    forall q | Candidate(a, gone, q)
      ensures Pref(v, q) == PrefOf(a, m, q)
    {
    }
  }

  /** The turn after some turns: a choice among what they left, and the next block
      of that part beside the blocks they issued. */
  ghost predicate TurnOk(a: Ask, req: set<Range>, lastPart: Option<int>, before: seq<Turn>, t: Turn)
    requires SortedRanges(a.gaps, a.totalSize)
  {
    && Chosen(a, Gone(before), LastOf(lastPart, before), t.part)
    && t.block == NextBlock(PartBounds(t.part, a.totalSize), a.gaps, req + SetOf(Blocks(before)))
  }

  /** A sequence of turns that `select_blocks` can take. */
  ghost predicate Legal(a: Ask, req: set<Range>, lastPart: Option<int>, turns: seq<Turn>)
    requires SortedRanges(a.gaps, a.totalSize)
  {
    forall i :: 0 <= i < |turns| ==> TurnOk(a, req, lastPart, turns[..i], turns[i])
  }

  lemma {:induction false} TurnsAppend(a: Ask, req: set<Range>, lastPart: Option<int>, turns: seq<Turn>, t: Turn)
    requires SortedRanges(a.gaps, a.totalSize)
    requires Legal(a, req, lastPart, turns) && TurnOk(a, req, lastPart, turns, t)
    ensures Legal(a, req, lastPart, turns + [t])
    ensures Gone(turns + [t]) == Gone(turns) + if t.block.None? then {t.part} else {}
    ensures Blocks(turns + [t]) == Blocks(turns) + if t.block.None? then [] else [t.block.value]
    ensures LastOf(lastPart, turns + [t]) == Some(t.part)
  {
    var all := turns + [t];
    assert all[..|turns|] == turns && all[|turns|] == t;
    forall i | 0 <= i < |all|
      ensures TurnOk(a, req, lastPart, all[..i], all[i])
    {
      if i < |turns| {
        assert all[..i] == turns[..i];
      }
    }
  }

  /** `gap_parts` and `gap_sizes` of the loop: what the exhausted parts left. */
  ghost predicate Left(a: Ask, gone: set<int>, gapParts: seq<int>, gapSizes: map<int, nat>) {
    && Ascending(gapParts) && PartSet(gapParts) == ViewOf(a, gone).gapParts
    && gapSizes == ViewOf(a, gone).gapSizes
  }

  lemma {:induction false} PartsRemove(parts: seq<int>, p: int)
    requires Ascending(parts)
    ensures Ascending(RemoveFirst(parts, p)) && PartSet(RemoveFirst(parts, p)) == PartSet(parts) - {p}
  {
    RemoveFirstKeeps(parts, p);
    forall q
      ensures q in PartSet(RemoveFirst(parts, p)) <==> q in PartSet(parts) - {p}
    {
    }
  }

  lemma {:induction false} ViewRemove(a: Ask, gone: set<int>, p: int)
    ensures ViewOf(a, gone + {p}).gapParts == ViewOf(a, gone).gapParts - {p}
    ensures ViewOf(a, gone + {p}).gapSizes == ViewOf(a, gone).gapSizes - {p}
  {
  }

  lemma {:induction false} LeftRemove(a: Ask, gone: set<int>, gapParts: seq<int>, gapSizes: map<int, nat>, p: int)
    requires Left(a, gone, gapParts, gapSizes)
    ensures Left(a, gone + {p}, RemoveFirst(gapParts, p), gapSizes - {p})
  {
    ViewRemove(a, gone, p);
    PartsRemove(gapParts, p);
  }

  lemma {:induction false} LeftView(a: Ask, gone: set<int>, gapParts: seq<int>, gapSizes: map<int, nat>, v: View)
    requires SortedRanges(a.gaps, a.totalSize) && Left(a, gone, gapParts, gapSizes)
    requires v == View(a.available, a.frequencies, PartSet(gapParts), gapSizes, a.downloading)
    ensures v == ViewOf(a, gone) && GapSizesFit(v)
    ensures forall p :: IsCandidate(v, p) <==> Candidate(a, gone, p)
  {
    ViewFits(a, gone);
  }

  lemma {:induction false} OneMore(req: seq<Range>, first: set<Range>, issued: seq<Range>, block: Range)
    requires SetOf(req) == first + SetOf(issued)
    ensures SetOf(req + [block]) == first + SetOf(issued + [block])
  {
    SetOfAppend(req, block);
    SetOfAppend(issued, block);
  }

  /** `choose_part` on what is left. */
  method ChooseLeft(a: Ask, gapParts: seq<int>, gapSizes: map<int, nat>, last: Option<int>, ghost gone: set<int>)
    returns (chosen: Option<int>)
    requires SortedRanges(a.gaps, a.totalSize) && Left(a, gone, gapParts, gapSizes)
    ensures chosen.None? ==> forall p :: !Candidate(a, gone, p)
    ensures chosen.Some? ==> Chosen(a, gone, last, chosen.value)
  {
    var v := View(a.available, a.frequencies, PartSet(gapParts), gapSizes, a.downloading);
    LeftView(a, gone, gapParts, gapSizes, v);
    chosen := ChoosePart(v, gapParts, last);
    if chosen.Some? {
      ChosenIsChoice(a, gone, last, chosen.value);
    }
  }

  /** What the variables of the loop are after some turns. */
  ghost predicate After(a: Ask, first: set<Range>, lastPart: Option<int>, turns: seq<Turn>, issued: seq<Range>,
                        last: Option<int>, req: seq<Range>, gapParts: seq<int>, gapSizes: map<int, nat>)
    requires SortedRanges(a.gaps, a.totalSize)
  {
    && Legal(a, first, lastPart, turns) && issued == Blocks(turns) && last == LastOf(lastPart, turns)
    && SetOf(req) == first + SetOf(issued)
    && Left(a, Gone(turns), gapParts, gapSizes)
  }

  lemma {:induction false} AfterTurn(a: Ask, first: set<Range>, lastPart: Option<int>, turns: seq<Turn>, issued: seq<Range>,
                                     last: Option<int>, req: seq<Range>, gapParts: seq<int>, gapSizes: map<int, nat>, t: Turn)
    requires SortedRanges(a.gaps, a.totalSize)
    requires After(a, first, lastPart, turns, issued, last, req, gapParts, gapSizes)
    requires TurnOk(a, first, lastPart, turns, t)
    ensures t.block.None? ==>
              After(a, first, lastPart, turns + [t], issued, Some(t.part), req, RemoveFirst(gapParts, t.part), gapSizes - {t.part})
    ensures t.block.Some? ==>
              After(a, first, lastPart, turns + [t], issued + [t.block.value], Some(t.part), req + [t.block.value], gapParts, gapSizes)
  {
    TurnsAppend(a, first, lastPart, turns, t);
    if t.block.None? {
      LeftRemove(a, Gone(turns), gapParts, gapSizes, t.part);
    } else {
      OneMore(req, first, issued, t.block.value);
    }
  }

  /** `select_blocks` takes legal turns, and stops early only when no candidate is
      left; each block is the next block of an available part beside those before it. */
  method SelectBlocks(a: Ask, lastPart: Option<int>, requested: seq<Range>, maxBlocks: nat)
    returns (issued: seq<Range>, last: Option<int>, ghost turns: seq<Turn>)
    requires SortedRanges(a.gaps, a.totalSize)
    ensures Legal(a, SetOf(requested), lastPart, turns) && issued == Blocks(turns)
    ensures Ended(a, turns, maxBlocks)
    ensures last == if issued == [] then None else LastOf(lastPart, turns)
    ensures |issued| <= maxBlocks && IssueChain(a.totalSize, a.gaps, a.available, SetOf(requested), issued)
  {
    var gapParts, gapSizes := GapSizes(a.totalSize, a.gaps);
    var req := requested;
    issued, last, turns := [], lastPart, [];
    ghost var first := SetOf(requested);
    var turn := 0;
    while turn < maxBlocks
      invariant 0 <= turn == |turns| <= maxBlocks
      invariant After(a, first, lastPart, turns, issued, last, req, gapParts, gapSizes)
    {
      var chosen := ChooseLeft(a, gapParts, gapSizes, last, Gone(turns));
      if chosen.None? {
        break;
      }
      var p := chosen.value;
      var block := NextBlockInPart(p, a.totalSize, a.gaps, req);
      AfterTurn(a, first, lastPart, turns, issued, last, req, gapParts, gapSizes, Turn(p, block));
      turns := turns + [Turn(p, block)];
      if block.None? {
        gapSizes := gapSizes - {p};
        gapParts := RemoveFirst(gapParts, p);
      } else {
        issued := issued + [block.value];
        req := req + [block.value];
      }
      last := chosen;
      turn := turn + 1;
    }
    if issued == [] {
      last := None;
    }
    LegalIssues(a, first, lastPart, turns, issued);
    BlockCount(turns);
  }

  /** All turns were taken, or no candidate is left. */
  ghost predicate Ended(a: Ask, turns: seq<Turn>, maxBlocks: nat) {
    && |turns| <= maxBlocks
    && (|turns| < maxBlocks ==> forall p :: !Candidate(a, Gone(turns), p))
  }

  // ----- what is issued -----

  /** Block i is the next block of some available part, given all before it. */
  ghost predicate IsIssue(totalSize: int, gaps: seq<Range>, available: set<int>, req: set<Range>, block: Range) {
    exists p :: 0 <= p < PartCount(totalSize) && p in available
                && NextBlock(PartBounds(p, totalSize), gaps, req) == Some(block)
  }

  ghost predicate IssueChain(totalSize: int, gaps: seq<Range>, available: set<int>, req: set<Range>, issued: seq<Range>) {
    forall i :: 0 <= i < |issued| ==> IsIssue(totalSize, gaps, available, req + SetOf(issued[..i]), issued[i])
  }

  lemma {:induction false} IssueOneMore(totalSize: int, gaps: seq<Range>, available: set<int>, req: set<Range>, issued: seq<Range>,
                     block: Range, p: int)
    requires IssueChain(totalSize, gaps, available, req, issued)
    requires 0 <= p < PartCount(totalSize) && p in available
    requires NextBlock(PartBounds(p, totalSize), gaps, req + SetOf(issued)) == Some(block)
    ensures IssueChain(totalSize, gaps, available, req, issued + [block])
  {
    var all := issued + [block];
    forall i | 0 <= i < |all|
      ensures IsIssue(totalSize, gaps, available, req + SetOf(all[..i]), all[i])
    {
      if i < |issued| {
        assert all[..i] == issued[..i];
      } else {
        assert all[..i] == issued;
      }
    }
  }

  lemma {:induction false} IssueInit(totalSize: int, gaps: seq<Range>, available: set<int>, req: set<Range>, init: seq<Range>, block: Range)
    requires IssueChain(totalSize, gaps, available, req, init + [block])
    ensures IssueChain(totalSize, gaps, available, req, init)
    ensures IsIssue(totalSize, gaps, available, req + SetOf(init), block)
  {
    var issued := init + [block];
    assert issued[..|init|] == init && issued[|init|] == block;
    forall i | 0 <= i < |init|
      ensures IsIssue(totalSize, gaps, available, req + SetOf(init[..i]), init[i])
    {
      assert issued[..i] == init[..i] && issued[i] == init[i];
    }
  }

  lemma {:induction false} SetOfAppend(ranges: seq<Range>, r: Range)
    ensures SetOf(ranges + [r]) == SetOf(ranges) + {r}
  {
  }

  /** What a turn does, whatever it preferred. */
  lemma {:induction false} TurnFacts(a: Ask, req: set<Range>, lastPart: Option<int>, before: seq<Turn>, t: Turn)
    requires SortedRanges(a.gaps, a.totalSize) && TurnOk(a, req, lastPart, before, t)
    ensures Wanted(a, t.part) && t.part in a.available && t.part !in Gone(before)
    ensures t.block == NextBlock(PartBounds(t.part, a.totalSize), a.gaps, req + SetOf(Blocks(before)))
  {
  }

  lemma {:induction false} LastTurn(a: Ask, req: set<Range>, lastPart: Option<int>, turns: seq<Turn>, init: seq<Turn>, t: Turn)
    requires SortedRanges(a.gaps, a.totalSize) && Legal(a, req, lastPart, turns) && turns == init + [t]
    ensures Legal(a, req, lastPart, init) && TurnOk(a, req, lastPart, init, t)
  {
    assert turns[..|init|] == init && turns[|init|] == t;
    LegalPrefix(a, req, lastPart, turns, |init|);
  }

  lemma {:induction false} IssueTurn(a: Ask, req: set<Range>, lastPart: Option<int>, init: seq<Turn>, t: Turn,
                                     blocks: seq<Range>, all: seq<Range>)
    requires SortedRanges(a.gaps, a.totalSize) && TurnOk(a, req, lastPart, init, t) && blocks == Blocks(init)
    requires IssueChain(a.totalSize, a.gaps, a.available, req, blocks)
    requires all == blocks + if t.block.None? then [] else [t.block.value]
    ensures IssueChain(a.totalSize, a.gaps, a.available, req, all)
  {
    TurnFacts(a, req, lastPart, init, t);
    if t.block.Some? {
      IssueOneMore(a.totalSize, a.gaps, a.available, req, blocks, t.block.value, t.part);
    } else {
      assert all == blocks;
    }
  }

  lemma {:induction false} LastBlock(turns: seq<Turn>, init: seq<Turn>, t: Turn)
    requires turns == init + [t]
    ensures Blocks(turns) == Blocks(init) + if t.block.None? then [] else [t.block.value]
    ensures Gone(turns) == Gone(init) + if t.block.None? then {t.part} else {}
  {
    assert turns[..|init|] == init && turns[|init|] == t;
  }

  lemma {:induction false} SplitLast<T>(s: seq<T>) returns (init: seq<T>, last: T)
    requires s != []
    ensures s == init + [last]
  {
    init, last := s[..|s| - 1], s[|s| - 1];
  }

  /** Every block issued is the next one of an available part. */
  lemma {:induction false} LegalIssues(a: Ask, req: set<Range>, lastPart: Option<int>, turns: seq<Turn>, blocks: seq<Range>)
    requires SortedRanges(a.gaps, a.totalSize) && Legal(a, req, lastPart, turns) && blocks == Blocks(turns)
    ensures IssueChain(a.totalSize, a.gaps, a.available, req, blocks)
    decreases |turns|
  {
    if turns != [] {
      var init, t := SplitLast(turns);
      LastTurn(a, req, lastPart, turns, init, t);
      LegalIssues(a, req, lastPart, init, Blocks(init));
      LastBlock(turns, init, t);
      IssueTurn(a, req, lastPart, init, t, Blocks(init), blocks);
    }
  }

  lemma {:induction false} LegalPrefix(a: Ask, req: set<Range>, lastPart: Option<int>, turns: seq<Turn>, n: nat)
    requires SortedRanges(a.gaps, a.totalSize) && Legal(a, req, lastPart, turns) && n <= |turns|
    ensures Legal(a, req, lastPart, turns[..n])
  {
    var front := turns[..n];
    forall i | 0 <= i < |front|
      ensures TurnOk(a, req, lastPart, front[..i], front[i])
    {
      assert front[..i] == turns[..i] && front[i] == turns[i];
    }
  }

  lemma {:induction false} BlockCount(turns: seq<Turn>)
    ensures |Blocks(turns)| <= |turns|
    decreases |turns|
  {
    if turns != [] {
      BlockCount(turns[..|turns| - 1]);
    }
  }

  // ----- when nothing is issued -----

  /** A candidate with nothing left to ask for. */
  ghost predicate Exhausted(a: Ask, req: set<Range>, p: int) {
    Wanted(a, p) && p in a.available && NextBlock(PartBounds(p, a.totalSize), a.gaps, req) == None
  }

  /** A candidate with a byte nobody requested. */
  ghost predicate Free(a: Ask, req: set<Range>, p: int) {
    Wanted(a, p) && p in a.available && NextBlock(PartBounds(p, a.totalSize), a.gaps, req) != None
  }

  /** Each turn that issues nothing uses up one more exhausted candidate. */
  ghost predicate AllExhausted(a: Ask, req: set<Range>, turns: seq<Turn>) {
    && Blocks(turns) == [] && |Gone(turns)| == |turns|
    && (forall p :: p in Gone(turns) ==> Exhausted(a, req, p))
    && (turns != [] ==> turns[0].part in Gone(turns) && turns[|turns| - 1].part in Gone(turns))
  }

  lemma {:induction false} ExhaustedStep(a: Ask, req: set<Range>, lastPart: Option<int>, init: seq<Turn>, t: Turn)
    requires SortedRanges(a.gaps, a.totalSize) && AllExhausted(a, req, init) && t.block.None?
    requires Wanted(a, t.part) && t.part in a.available && t.part !in Gone(init)
    requires t.block == NextBlock(PartBounds(t.part, a.totalSize), a.gaps, req + SetOf([]))
    ensures AllExhausted(a, req, init + [t])
  {
    var turns := init + [t];
    assert turns[..|init|] == init && turns[|init|] == t;
    assert req + SetOf([]) == req;
    assert init != [] ==> turns[0] == init[0];
  }

  /** The last of turns that issue nothing. */
  lemma {:induction false} LastIssuesNothing(turns: seq<Turn>, init: seq<Turn>, t: Turn)
    requires turns == init + [t] && Blocks(turns) == []
    ensures Blocks(init) == [] && t.block.None? && Gone(turns) == Gone(init) + {t.part}
  {
    assert turns[..|turns| - 1] == init;
  }

  lemma {:induction false} NothingIssued(a: Ask, req: set<Range>, lastPart: Option<int>, turns: seq<Turn>)
    requires SortedRanges(a.gaps, a.totalSize) && Legal(a, req, lastPart, turns) && Blocks(turns) == []
    ensures AllExhausted(a, req, turns)
    decreases |turns|
  {
    if turns != [] {
      var init, t := SplitLast(turns);
      LastTurn(a, req, lastPart, turns, init, t);
      LastIssuesNothing(turns, init, t);
      NothingIssued(a, req, lastPart, init);
      TurnFacts(a, req, lastPart, init, t);
      ExhaustedStep(a, req, lastPart, init, t);
    }
  }

  /** Turn i, when the turns before it issued nothing: the sticky part first, then
      a part that no other candidate precedes, in the mode of that turn. */
  lemma {:induction false} TurnPicks(a: Ask, req: set<Range>, lastPart: Option<int>, before: seq<Turn>, t: Turn, other: int)
    requires SortedRanges(a.gaps, a.totalSize) && Legal(a, req, lastPart, before) && Blocks(before) == []
    requires TurnOk(a, req, lastPart, before, t)
    requires Wanted(a, other) && other in a.available && other !in Gone(before)
    ensures Wanted(a, t.part) && t.part in a.available && t.part !in Gone(before)
    ensures t.block == NextBlock(PartBounds(t.part, a.totalSize), a.gaps, req)
    ensures before == [] && lastPart == Some(other) ==> t.part == other
    ensures || (before == [] && lastPart == Some(t.part))
            || exists m :: PrefOf(a, m, t.part) <= PrefOf(a, m, other)
  {
    NothingIssued(a, req, lastPart, before);
    assert req + SetOf([]) == req;
    assert Candidate(a, Gone(before), other);
    if before != [] || lastPart != Some(t.part) {
      var m := ModeLeft(a, Gone(before));
      assert PrefOf(a, m, t.part) <= PrefOf(a, m, other);
    }
  }

  /** An exhausted candidate that a turn may take before f: the sticky part, or one
      that f does not precede in some mode. */
  ghost predicate MayPrecede(a: Ask, req: set<Range>, lastPart: Option<int>, e: int, f: int)
    requires SortedRanges(a.gaps, a.totalSize) && Wanted(a, f)
  {
    Exhausted(a, req, e) && (lastPart == Some(e) || exists m :: PrefOf(a, m, e) <= PrefOf(a, m, f))
  }

  /** An exhausted candidate that every turn takes before any free one: the sticky
      part, or one that precedes them all in every mode. */
  ghost predicate MustPrecede(a: Ask, req: set<Range>, lastPart: Option<int>, e: int)
    requires SortedRanges(a.gaps, a.totalSize)
  {
    && Exhausted(a, req, e)
    && (lastPart == Some(e) || forall f, m :: Free(a, req, f) ==> PrefOf(a, m, e) < PrefOf(a, m, f))
  }

  lemma {:induction false} SlowTurn(a: Ask, req: set<Range>, lastPart: Option<int>, init: seq<Turn>, t: Turn, f: int, slow: set<int>)
    requires SortedRanges(a.gaps, a.totalSize) && Legal(a, req, lastPart, init) && Blocks(init) == []
    requires TurnOk(a, req, lastPart, init, t) && t.block.None?
    requires Free(a, req, f) && forall e :: MayPrecede(a, req, lastPart, e, f) ==> e in slow
    ensures t.part in slow
  {
    NothingIssued(a, req, lastPart, init);
    TurnPicks(a, req, lastPart, init, t, f);
    assert MayPrecede(a, req, lastPart, t.part, f);
  }

  lemma {:induction false} OnlySlowGone(a: Ask, req: set<Range>, lastPart: Option<int>, turns: seq<Turn>, f: int, slow: set<int>)
    requires SortedRanges(a.gaps, a.totalSize) && Legal(a, req, lastPart, turns) && Blocks(turns) == []
    requires Free(a, req, f) && forall e :: MayPrecede(a, req, lastPart, e, f) ==> e in slow
    ensures Gone(turns) <= slow
    decreases |turns|
  {
    if turns != [] {
      var init, t := SplitLast(turns);
      LastTurn(a, req, lastPart, turns, init, t);
      LastIssuesNothing(turns, init, t);
      OnlySlowGone(a, req, lastPart, init, f, slow);
      SlowTurn(a, req, lastPart, init, t, f, slow);
    }
  }

  /** A block is issued whenever some candidate has a free byte and fewer exhausted
      candidates than turns may come before it. */
  lemma {:induction false} BlockIsIssued(a: Ask, req: set<Range>, lastPart: Option<int>, turns: seq<Turn>, maxBlocks: nat,
                                         f: int, slow: set<int>)
    requires SortedRanges(a.gaps, a.totalSize) && Legal(a, req, lastPart, turns) && Ended(a, turns, maxBlocks)
    requires Free(a, req, f) && forall e :: MayPrecede(a, req, lastPart, e, f) ==> e in slow
    requires |slow| < maxBlocks
    ensures Blocks(turns) != []
  {
    if Blocks(turns) == [] {
      NothingIssued(a, req, lastPart, turns);
      assert Candidate(a, Gone(turns), f);
      OnlySlowGone(a, req, lastPart, turns, f, slow);
      SubsetSize(Gone(turns), slow);
    }
  }

  lemma {:induction false} SubsetSize(small: set<int>, large: set<int>)
    requires small <= large
    ensures |small| <= |large|
  {
    assert large == small + (large - small);
  }

  lemma {:induction false} OneLeft(ahead: set<int>, gone: set<int>) returns (e: int)
    requires |gone| < |ahead|
    ensures e in ahead && e !in gone
  {
    if forall x :: x in ahead ==> x in gone {
      SubsetSize(ahead, gone);
    }
    e :| e in ahead && e !in gone;
  }

  lemma {:induction false} FastFirst(a: Ask, req: set<Range>, lastPart: Option<int>, turns: seq<Turn>, ahead: set<int>)
    requires SortedRanges(a.gaps, a.totalSize) && Legal(a, req, lastPart, turns) && |turns| <= |ahead|
    requires forall e :: e in ahead ==> MustPrecede(a, req, lastPart, e)
    requires lastPart.Some? ==> !Free(a, req, lastPart.value)
    ensures Blocks(turns) == []
    decreases |turns|
  {
    if turns != [] {
      var init, t := SplitLast(turns);
      LastTurn(a, req, lastPart, turns, init, t);
      FastFirst(a, req, lastPart, init, ahead);
      NothingIssued(a, req, lastPart, init);
      var e := OneLeft(ahead, Gone(init));
      NotFree(a, req, lastPart, init, t, e);
      LastBlock(turns, init, t);
    }
  }

  lemma {:induction false} NotFree(a: Ask, req: set<Range>, lastPart: Option<int>, before: seq<Turn>, t: Turn, e: int)
    requires SortedRanges(a.gaps, a.totalSize) && Legal(a, req, lastPart, before) && Blocks(before) == []
    requires TurnOk(a, req, lastPart, before, t)
    requires MustPrecede(a, req, lastPart, e) && e !in Gone(before)
    requires lastPart.Some? ==> !Free(a, req, lastPart.value)
    ensures t.block == None
  {
    TurnPicks(a, req, lastPart, before, t, e);
    if before != [] && lastPart == Some(e) {
      assert TurnOk(a, req, lastPart, before[..0], before[0]);
      TurnPicks(a, req, lastPart, before[..0], before[0], e);
      NothingIssued(a, req, lastPart, before);
    }
  }

  /** Nothing is issued when as many exhausted candidates as there are turns come
      before every candidate with a free byte. */
  lemma {:induction false} NoBlockIsIssued(a: Ask, req: set<Range>, lastPart: Option<int>, turns: seq<Turn>, maxBlocks: nat,
                                           ahead: set<int>)
    requires SortedRanges(a.gaps, a.totalSize) && Legal(a, req, lastPart, turns) && Ended(a, turns, maxBlocks)
    requires maxBlocks <= |ahead| && forall e :: e in ahead ==> MustPrecede(a, req, lastPart, e)
    requires lastPart.Some? ==> !Free(a, req, lastPart.value)
    ensures Blocks(turns) == []
  {
    FastFirst(a, req, lastPart, turns, ahead);
  }

  /** Exactly when a block is issued, where no preference value ties an exhausted
      part with a free one and no mode orders them differently: f is a free
      candidate, and the parts that may precede it are those that must. */
  lemma {:induction false} BlockIssuedIff(a: Ask, req: set<Range>, lastPart: Option<int>, turns: seq<Turn>, maxBlocks: nat,
                                          f: int, ahead: set<int>)
    requires SortedRanges(a.gaps, a.totalSize) && Legal(a, req, lastPart, turns) && Ended(a, turns, maxBlocks)
    requires Free(a, req, f) && (lastPart.Some? ==> !Free(a, req, lastPart.value))
    requires forall e :: MayPrecede(a, req, lastPart, e, f) ==> e in ahead
    requires forall e :: e in ahead ==> MustPrecede(a, req, lastPart, e)
    ensures Blocks(turns) != [] <==> |ahead| < maxBlocks
  {
    if |ahead| < maxBlocks {
      BlockIsIssued(a, req, lastPart, turns, maxBlocks, f, ahead);
    } else {
      NoBlockIsIssued(a, req, lastPart, turns, maxBlocks, ahead);
    }
  }

  /** A free sticky part is taken at once. */
  lemma {:induction false} StickyIsIssued(a: Ask, req: set<Range>, lastPart: Option<int>, turns: seq<Turn>, maxBlocks: nat)
    requires SortedRanges(a.gaps, a.totalSize) && Legal(a, req, lastPart, turns) && Ended(a, turns, maxBlocks)
    requires lastPart.Some? && Free(a, req, lastPart.value) && maxBlocks > 0
    ensures Blocks(turns) != []
  {
    if Blocks(turns) == [] {
      NothingIssued(a, req, lastPart, turns);
      assert Candidate(a, Gone(turns), lastPart.value);
      assert TurnOk(a, req, lastPart, turns[..0], turns[0]);
      TurnPicks(a, req, lastPart, turns[..0], turns[0], lastPart.value);
    }
  }

  /** A run that issues nothing found every candidate exhausted, or as many
      exhausted ones as it had turns. */
  lemma {:induction false} NothingIssuedMeans(a: Ask, req: set<Range>, lastPart: Option<int>, turns: seq<Turn>, maxBlocks: nat)
    requires SortedRanges(a.gaps, a.totalSize) && Legal(a, req, lastPart, turns) && Ended(a, turns, maxBlocks)
    requires Blocks(turns) == []
    ensures || (forall p :: Wanted(a, p) && p in a.available ==> Exhausted(a, req, p))
            || (|Gone(turns)| == maxBlocks && forall p :: p in Gone(turns) ==> Exhausted(a, req, p))
  {
    NothingIssued(a, req, lastPart, turns);
    if |turns| < maxBlocks {
      forall p | Wanted(a, p) && p in a.available
        ensures Exhausted(a, req, p)
      {
        assert !Candidate(a, Gone(turns), p);
      }
    }
  }
}
