/** The in-flight registry shared by all peers of a file, as a state machine:
    selecting, writing, releasing and punching are its atomic steps
    (core/download/runner.py over core/download/ics.py). */
module Registry {
  import opened Base
  import opened Ics
  import opened IcsBlocks

  // ----- block windows and pieces -----

  /** Blocks never cross a part, nor a multiple of EMBLOCK_SIZE within it. */
  predicate SameWindow(x: int, y: int) {
    x / PART_SIZE == y / PART_SIZE && (x % PART_SIZE) / EMBLOCK_SIZE == (y % PART_SIZE) / EMBLOCK_SIZE
  }

  lemma {:induction false} SameWindowBetween(a: int, x: int, y: int, b: int)
    requires a <= x <= y <= b && SameWindow(a, b)
    ensures SameWindow(x, y)
  {
    assert a / PART_SIZE <= x / PART_SIZE <= y / PART_SIZE <= b / PART_SIZE;
    assert a % PART_SIZE <= x % PART_SIZE <= y % PART_SIZE <= b % PART_SIZE;
  }

  /** x and x + 1 are missing bytes of one window. */
  predicate Joined(missing: set<int>, x: int) {
    x in missing && x + 1 in missing && SameWindow(x, x + 1)
  }

  /** A longest run of missing bytes inside one window. */
  ghost predicate Piece(missing: set<int>, a: int, b: int) {
    && a <= b && SameWindow(a, b)
    && (forall x :: a <= x <= b ==> x in missing)
    && !Joined(missing, a - 1) && !Joined(missing, b)
  }

  predicate Disjoint(r: Range, q: Range) {
    r.hi < q.lo || q.hi < r.lo
  }

  /** r lies in one window and does not end inside a run of missing bytes. */
  predicate Whole(missing: set<int>, r: Range) {
    && r.lo <= r.hi && SameWindow(r.lo, r.hi)
    && !Joined(missing, r.lo - 1) && !Joined(missing, r.hi)
  }

  /** The registry invariant. */
  ghost predicate Inv(missing: set<int>, req: set<Range>) {
    && (forall r :: r in req ==> Whole(missing, r))
    && (forall r, q :: r in req && q in req && r != q ==> Disjoint(r, q))
  }

  /** What it means: a requested range that meets a piece covers all of it. */
  lemma {:induction false} WholeCoversPieces(missing: set<int>, r: Range, a: int, b: int)
    requires Whole(missing, r) && Piece(missing, a, b) && r.lo <= b && a <= r.hi
    ensures r.lo <= a && b <= r.hi
  {
    if a < r.lo {
      SameWindowBetween(a, r.lo - 1, r.lo, b);
      assert false;
    }
    if r.hi < b {
      SameWindowBetween(a, r.hi, r.hi + 1, b);
      assert false;
    }
  }

  // ----- an issued block is a whole piece -----

  /** The sorted gap list of a set of missing bytes. */
  ghost predicate Lists(gaps: seq<Range>, missing: set<int>, totalSize: int) {
    SortedRanges(gaps, totalSize) && forall x :: x in missing <==> InRanges(gaps, x)
  }

  lemma {:induction false} GapEdges(gaps: seq<Range>, missing: set<int>, totalSize: int, i: nat)
    requires Lists(gaps, missing, totalSize) && i < |gaps|
    ensures gaps[i].lo - 1 !in missing && gaps[i].hi + 1 !in missing
    ensures forall x :: Meets(gaps[i], x) ==> x in missing
    ensures totalSize !in missing
  {
    forall x | x in missing
      ensures x != gaps[i].lo - 1 && x != gaps[i].hi + 1
    {
      var j :| 0 <= j < |gaps| && Meets(gaps[j], x);
      if j < i {
        assert gaps[j].hi + 1 < gaps[i].lo;
      } else if i < j {
        assert gaps[i].hi + 1 < gaps[j].lo;
      }
    }
    forall x | Meets(gaps[i], x)
      ensures InRanges(gaps, x)
    {
    }
  }

  lemma {:induction false} InPart(x: int, part: nat)
    requires part * PART_SIZE <= x < part * PART_SIZE + PART_SIZE
    ensures x / PART_SIZE == part && x % PART_SIZE == x - part * PART_SIZE
  {
  }

  lemma {:induction false} WindowOf(start: int, part: nat, end: int)
    requires part * PART_SIZE <= start <= end < part * PART_SIZE + PART_SIZE
    ensures end <= WindowEnd(start, part * PART_SIZE) ==> SameWindow(start, end)
    ensures end == WindowEnd(start, part * PART_SIZE) ==> !SameWindow(end, end + 1)
  {
    InPart(start, part);
    InPart(end, part);
    if end + 1 < part * PART_SIZE + PART_SIZE {
      InPart(end + 1, part);
    } else {
      InPart(end + 1, part + 1);
    }
  }

  /** Where every requested range is whole, a piece is requested all or not at all. */
  lemma {:induction false} PieceShrinks(missing: set<int>, req: set<Range>, a: int, b: int)
    requires (forall r :: r in req ==> Whole(missing, r)) && Piece(missing, a, b)
    ensures Shrink(a, b, req) == None || Shrink(a, b, req) == Some(Range(a, b))
    ensures Shrink(a, b, req).Some? ==> forall x :: a <= x <= b ==> !Requested(x, req)
  {
    if x :| a <= x <= b && Requested(x, req) {
      var r :| r in req && r.lo <= x <= r.hi;
      WholeCoversPieces(missing, r, a, b);
      ShrinkNothing(a, b, req);
    } else {
      ShrinkIs(a, b, req, a, b);
    }
  }

  lemma {:induction false} WindowIsPiece(missing: set<int>, start: int, limit: int, part: nat, end: int)
    requires part * PART_SIZE <= start <= limit < part * PART_SIZE + PART_SIZE
    requires end == Min(limit, WindowEnd(start, part * PART_SIZE))
    requires forall x :: start <= x <= limit ==> x in missing
    requires !Joined(missing, start - 1) && !Joined(missing, limit)
    ensures start <= end <= limit && Piece(missing, start, end)
  {
    WindowOf(start, part, end);
  }

  lemma {:induction false} FirstWindowIsPiece(missing: set<int>, req: set<Range>, start: int, limit: int, part: nat,
                                              block: Option<Range>)
    requires forall r :: r in req ==> Whole(missing, r)
    requires part * PART_SIZE <= start && limit < part * PART_SIZE + PART_SIZE
    requires forall x :: start <= x <= limit ==> x in missing
    requires !Joined(missing, start - 1) && !Joined(missing, limit)
    requires block == FirstWindow(start, limit, part * PART_SIZE, req)
    ensures block.Some? ==> FreshPiece(missing, req, block.value)
    decreases limit - start
  {
    if start <= limit {
      var end := Min(limit, WindowEnd(start, part * PART_SIZE));
      WindowIsPiece(missing, start, limit, part, end);
      PieceShrinks(missing, req, start, end);
      if Shrink(start, end, req).None? {
        FirstWindowIsPiece(missing, req, end + 1, limit, part, block);
      }
    }
  }

  lemma {:induction false} PartEdges(part: nat)
    ensures !SameWindow(part * PART_SIZE - 1, part * PART_SIZE)
  {
  }

  lemma {:induction false} LowEdge(missing: set<int>, gap: Range, part: nat, totalSize: int, lo: int)
    requires gap.lo - 1 !in missing && lo == Max(gap.lo, PartBounds(part, totalSize).lo)
    ensures !Joined(missing, lo - 1)
  {
    PartEdges(part);
  }

  lemma {:induction false} HighEdge(missing: set<int>, gap: Range, part: nat, totalSize: int, hi: int)
    requires gap.hi + 1 !in missing && totalSize !in missing && hi == Min(gap.hi, PartBounds(part, totalSize).hi)
    ensures !Joined(missing, hi)
  {
    PartEdges(part + 1);
  }

  lemma {:induction false} GapPiece(missing: set<int>, req: set<Range>, gaps: seq<Range>, totalSize: int, part: nat, i: nat,
                                    lo: int, hi: int, block: Option<Range>)
    requires (forall r :: r in req ==> Whole(missing, r)) && Lists(gaps, missing, totalSize) && i < |gaps|
    requires var bounds := PartBounds(part, totalSize);
             && gaps[i].hi >= bounds.lo && gaps[i].lo <= bounds.hi
             && lo == Max(gaps[i].lo, bounds.lo) && hi == Min(gaps[i].hi, bounds.hi)
    requires part * PART_SIZE <= lo && block == FirstWindow(lo, hi, part * PART_SIZE, req)
    ensures block.Some? ==> FreshPiece(missing, req, block.value)
  {
    GapEdges(gaps, missing, totalSize, i);
    LowEdge(missing, gaps[i], part, totalSize, lo);
    HighEdge(missing, gaps[i], part, totalSize, hi);
    FirstWindowIsPiece(missing, req, lo, hi, part, block);
  }

  lemma {:induction false} NextBlockIsPiece(missing: set<int>, req: set<Range>, gaps: seq<Range>, totalSize: int,
                                            part: nat, i: nat, block: Option<Range>)
    requires forall r :: r in req ==> Whole(missing, r)
    requires Lists(gaps, missing, totalSize) && i <= |gaps|
    requires block == NextBlock(PartBounds(part, totalSize), gaps[i..], req)
    ensures block.Some? ==> FreshPiece(missing, req, block.value)
    decreases |gaps| - i
  {
    if i < |gaps| {
      var bounds, gap := PartBounds(part, totalSize), gaps[i];
      assert gaps[i..][0] == gap && gaps[i..][1..] == gaps[i + 1..];
      NextBlockIsPiece(missing, req, gaps, totalSize, part, i + 1, NextBlock(bounds, gaps[i + 1..], req));
      if gap.hi >= bounds.lo && gap.lo <= bounds.hi {
        var lo, hi := Max(gap.lo, bounds.lo), Min(gap.hi, bounds.hi);
        GapPiece(missing, req, gaps, totalSize, part, i, lo, hi, FirstWindow(lo, hi, part * PART_SIZE, req));
      }
    }
  }

  /** The block is a whole piece, none of whose bytes is requested. */
  ghost predicate FreshPiece(missing: set<int>, req: set<Range>, block: Range) {
    Piece(missing, block.lo, block.hi) && forall x :: Meets(block, x) ==> !Requested(x, req)
  }

  lemma {:induction false} FreeOfRange(req: set<Range>, r: Range, block: Range)
    requires r in req && r.lo <= r.hi && block.lo <= block.hi
    requires forall x :: Meets(block, x) ==> !Requested(x, req)
    ensures Disjoint(r, block)
  {
    var x := Max(r.lo, block.lo);
    assert r.lo <= x <= r.hi ==> Requested(x, req);
    assert Meets(block, x) ==> !Requested(x, req);
  }

  lemma {:induction false} IssueKeepsInv(missing: set<int>, req: set<Range>, block: Range)
    requires Inv(missing, req) && FreshPiece(missing, req, block)
    ensures Inv(missing, req + {block})
  {
    forall r | r in req
      ensures Disjoint(r, block)
    {
      FreeOfRange(req, r, block);
    }
  }

  lemma {:induction false} IssueIsFresh(missing: set<int>, req: set<Range>, gaps: seq<Range>, totalSize: int, available: set<int>, block: Range)
    requires Inv(missing, req) && Lists(gaps, missing, totalSize)
    requires IsIssue(totalSize, gaps, available, req, block)
    ensures FreshPiece(missing, req, block)
  {
    var p :| 0 <= p < PartCount(totalSize) && p in available
             && NextBlock(PartBounds(p, totalSize), gaps, req) == Some(block);
    assert gaps[0..] == gaps;
    NextBlockIsPiece(missing, req, gaps, totalSize, p, 0, Some(block));
  }

  /** Each block a whole piece that nobody had asked for, the blocks before it included. */
  ghost predicate AllFresh(missing: set<int>, req: set<Range>, issued: seq<Range>) {
    forall i :: 0 <= i < |issued| ==> FreshPiece(missing, req + SetOf(issued[..i]), issued[i])
  }

  lemma {:induction false} AllFreshAppend(missing: set<int>, req: set<Range>, init: seq<Range>, block: Range)
    requires AllFresh(missing, req, init) && FreshPiece(missing, req + SetOf(init), block)
    ensures AllFresh(missing, req, init + [block])
  {
    var issued := init + [block];
    forall i | 0 <= i < |issued|
      ensures FreshPiece(missing, req + SetOf(issued[..i]), issued[i])
    {
      assert issued[..i] == init[..i];
      assert init[..|init|] == init;
    }
  }

  lemma {:induction false} IssueStep(missing: set<int>, req: set<Range>, gaps: seq<Range>, totalSize: int, available: set<int>,
                  init: seq<Range>, block: Range)
    requires Inv(missing, req + SetOf(init)) && Lists(gaps, missing, totalSize)
    requires IsIssue(totalSize, gaps, available, req + SetOf(init), block)
    ensures Inv(missing, req + SetOf(init + [block])) && FreshPiece(missing, req + SetOf(init), block)
  {
    IssueIsFresh(missing, req + SetOf(init), gaps, totalSize, available, block);
    IssueKeepsInv(missing, req + SetOf(init), block);
    SetOfAppend(init, block);
    assert req + SetOf(init + [block]) == (req + SetOf(init)) + {block};
  }

  /** A selection keeps the invariant, and every block it issues is fresh. */
  lemma {:induction false} SelectionKeepsInv(missing: set<int>, req: set<Range>, gaps: seq<Range>, totalSize: int,
                                             available: set<int>, issued: seq<Range>)
    requires Inv(missing, req) && Lists(gaps, missing, totalSize)
    requires IssueChain(totalSize, gaps, available, req, issued)
    ensures Inv(missing, req + SetOf(issued)) && AllFresh(missing, req, issued)
    decreases |issued|
  {
    if issued == [] {
      assert req + SetOf(issued) == req;
    } else {
      var init, block := SplitLast(issued);
      IssueInit(totalSize, gaps, available, req, init, block);
      SelectionKeepsInv(missing, req, gaps, totalSize, available, init);
      IssueStep(missing, req, gaps, totalSize, available, init, block);
      AllFreshAppend(missing, req, init, block);
    }
  }

  // ----- the state machine -----

  /** The missing bytes of the file and the ranges in flight. */
  datatype Flight = Flight(missing: set<int>, req: set<Range>)

  /** The atomic steps of any number of peers. A select names the blocks issued,
      a punch the bytes reopened. */
  datatype Action =
    | Select(available: set<int>, issued: seq<Range>)
    | Write(written: set<int>)
    | Release(released: set<Range>)
    | Punch(punched: set<int>)

  ghost predicate Next(totalSize: int, s: Flight, a: Action, t: Flight) {
    match a
    case Select(available, issued) =>
      && (exists gaps :: Lists(gaps, s.missing, totalSize) && IssueChain(totalSize, gaps, available, s.req, issued))
      && t == s.(req := s.req + SetOf(issued))
    case Write(written) => t == s.(missing := s.missing - written)
    case Release(released) => t == s.(req := s.req - released)
    case Punch(punched) => t == s.(missing := s.missing + punched)
  }

  /** The punch leaves no end of a range in flight missing together with the byte
      outside it in the same window. */
  ghost predicate PunchSafe(s: Flight, a: Action) {
    a.Punch? ==>
      forall r :: r in s.req ==> !Joined(s.missing + a.punched, r.lo - 1) && !Joined(s.missing + a.punched, r.hi)
  }

  /** Every step keeps the invariant, except a punch that is not safe; and a select
      issues fresh whole pieces. */
  lemma {:induction false} StepKeepsInv(totalSize: int, s: Flight, a: Action, t: Flight)
    requires Inv(s.missing, s.req) && Next(totalSize, s, a, t)
    ensures Inv(t.missing, t.req) <==> PunchSafe(s, a)
    ensures a.Select? ==> AllFresh(s.missing, s.req, a.issued)
  {
    match a
    case Select(available, issued) =>
      var gaps :| Lists(gaps, s.missing, totalSize) && IssueChain(totalSize, gaps, available, s.req, issued);
      SelectionKeepsInv(s.missing, s.req, gaps, totalSize, available, issued);
    case Punch(punched) =>
      if Inv(t.missing, t.req) {
        assert forall r :: r in s.req ==> Whole(t.missing, r);
      }
    case _ =>
  }

  /** Punches of whole windows, which are all that salvage makes: safe exactly when every range
      in flight in a punched window covers all of it. */
  ghost predicate WholeWindows(totalSize: int, punched: set<int>) {
    && (forall x :: x in punched ==> 0 <= x < totalSize)
    && (forall x, y :: x in punched && 0 <= y < totalSize && SameWindow(x, y) ==> y in punched)
  }

  ghost predicate CoversWindow(totalSize: int, r: Range) {
    forall y :: 0 <= y < totalSize && SameWindow(r.lo, y) ==> r.lo <= y <= r.hi
  }

  lemma {:induction false} SameWindowJoins(x: int, y: int, z: int)
    requires SameWindow(x, y) && SameWindow(x, z)
    ensures SameWindow(y, x) && SameWindow(y, z)
  {
  }

  /** A range in a punched window is safe exactly when it covers the window. */
  lemma {:induction false} InPunchedWindow(totalSize: int, missing: set<int>, punched: set<int>, r: Range, x: int)
    requires WholeWindows(totalSize, punched) && Whole(missing, r) && 0 <= r.lo && r.hi < totalSize
    requires forall y :: y in missing ==> 0 <= y < totalSize
    requires x in punched && SameWindow(r.lo, x)
    ensures CoversWindow(totalSize, r)
            <==> !Joined(missing + punched, r.lo - 1) && !Joined(missing + punched, r.hi)
  {
    SameWindowJoins(r.lo, x, r.lo);
    SameWindowJoins(r.lo, x, r.hi);
    assert r.lo in punched && r.hi in punched;
    if CoversWindow(totalSize, r) {
      NoNeighbour(totalSize, missing + punched, r);
    } else {
      var y :| 0 <= y < totalSize && SameWindow(r.lo, y) && !(r.lo <= y <= r.hi);
      if y < r.lo {
        NeighbourBelow(totalSize, missing, punched, r, x, y);
      } else {
        NeighbourAbove(totalSize, missing, punched, r, x, y);
      }
    }
  }

  lemma {:induction false} OuterNeighbours(r: Range)
    requires r.lo <= r.hi && SameWindow(r.lo, r.hi)
    ensures SameWindow(r.lo - 1, r.lo) ==> SameWindow(r.lo, r.lo - 1)
    ensures SameWindow(r.hi, r.hi + 1) ==> SameWindow(r.lo, r.hi + 1)
  {
  }

  lemma {:induction false} NoNeighbour(totalSize: int, missing: set<int>, r: Range)
    requires CoversWindow(totalSize, r) && r.lo <= r.hi && SameWindow(r.lo, r.hi)
    requires forall y :: y in missing ==> 0 <= y < totalSize
    ensures !Joined(missing, r.lo - 1) && !Joined(missing, r.hi)
  {
    OuterNeighbours(r);
  }

  lemma {:induction false} NeighbourBelow(totalSize: int, missing: set<int>, punched: set<int>, r: Range, x: int, y: int)
    requires WholeWindows(totalSize, punched) && r.lo < totalSize && r.lo in punched
    requires x in punched && SameWindow(r.lo, x) && 0 <= y < r.lo && SameWindow(r.lo, y)
    ensures Joined(missing + punched, r.lo - 1)
  {
    SameWindowBetween(y, r.lo - 1, r.lo, r.lo);
    SameWindowJoins(r.lo, x, r.lo - 1);
  }

  lemma {:induction false} NeighbourAbove(totalSize: int, missing: set<int>, punched: set<int>, r: Range, x: int, y: int)
    requires WholeWindows(totalSize, punched) && 0 <= r.hi && r.lo <= r.hi && r.hi in punched
    requires x in punched && SameWindow(r.lo, x) && r.hi < y < totalSize && SameWindow(r.lo, y)
    ensures Joined(missing + punched, r.hi)
  {
    SameWindowBetween(r.lo, r.hi, r.hi + 1, y);
    SameWindowBetween(r.lo, r.lo, r.hi + 1, y);
    SameWindowJoins(r.lo, x, r.hi + 1);
  }

  /** A range with no punched byte in its window is not affected. */
  lemma {:induction false} OutsidePunch(missing: set<int>, punched: set<int>, r: Range)
    requires Whole(missing, r) && forall x :: x in punched ==> !SameWindow(r.lo, x)
    ensures !Joined(missing + punched, r.lo - 1) && !Joined(missing + punched, r.hi)
  {
    assert SameWindow(r.lo, r.lo);
    OuterNeighbours(r);
  }

  lemma {:induction false} WindowPunchSafeIff(totalSize: int, s: Flight, punched: set<int>)
    requires Inv(s.missing, s.req) && WholeWindows(totalSize, punched)
    requires forall y :: y in s.missing ==> 0 <= y < totalSize
    requires forall r :: r in s.req ==> 0 <= r.lo && r.hi < totalSize
    ensures PunchSafe(s, Punch(punched))
            <==> forall r, x :: r in s.req && x in punched && SameWindow(r.lo, x) ==> CoversWindow(totalSize, r)
  {
    forall r | r in s.req
      ensures (!Joined(s.missing + punched, r.lo - 1) && !Joined(s.missing + punched, r.hi))
              <==> forall x :: x in punched && SameWindow(r.lo, x) ==> CoversWindow(totalSize, r)
    {
      if x :| x in punched && SameWindow(r.lo, x) {
        InPunchedWindow(totalSize, s.missing, punched, r, x);
      } else {
        OutsidePunch(s.missing, punched, r);
      }
    }
  }

  /** A run from a file with nothing in flight. */
  ghost predicate IsRun(totalSize: int, states: seq<Flight>, actions: seq<Action>) {
    && |states| == |actions| + 1
    && states[0].req == {}
    && forall i :: 0 <= i < |actions| ==> Next(totalSize, states[i], actions[i], states[i + 1])
  }

  /** The punches among the first n steps are safe. */
  ghost predicate SafeSoFar(states: seq<Flight>, actions: seq<Action>, n: nat) {
    forall i :: 0 <= i < n && i < |actions| && i < |states| ==> PunchSafe(states[i], actions[i])
  }

  /** Over every run of any number of peers, as long as its punches are safe: ranges
      in flight are disjoint and whole, and every block issued is a fresh whole piece. */
  lemma {:induction false} EveryRunKeepsInv(totalSize: int, states: seq<Flight>, actions: seq<Action>, n: nat)
    requires IsRun(totalSize, states, actions) && n < |states| && SafeSoFar(states, actions, n)
    ensures Inv(states[n].missing, states[n].req)
    ensures n < |actions| && actions[n].Select? ==> AllFresh(states[n].missing, states[n].req, actions[n].issued)
    decreases n
  {
    if n > 0 {
      EveryRunKeepsInv(totalSize, states, actions, n - 1);
      StepKeepsInv(totalSize, states[n - 1], actions[n - 1], states[n]);
    }
    if n < |actions| {
      StepKeepsInv(totalSize, states[n], actions[n], states[n + 1]);
    }
  }

  /** Exactly those runs whose punches are all safe keep the invariant in every state. */
  lemma {:induction false} EveryRunIff(totalSize: int, states: seq<Flight>, actions: seq<Action>)
    requires IsRun(totalSize, states, actions)
    ensures (forall n :: 0 <= n < |states| ==> Inv(states[n].missing, states[n].req)) <==> SafeSoFar(states, actions, |actions|)
  {
    if SafeSoFar(states, actions, |actions|) {
      forall n | 0 <= n < |states|
        ensures Inv(states[n].missing, states[n].req)
      {
        EveryRunKeepsInv(totalSize, states, actions, n);
      }
    }
    if forall n :: 0 <= n < |states| ==> Inv(states[n].missing, states[n].req) {
      forall i | 0 <= i < |actions|
        ensures PunchSafe(states[i], actions[i])
      {
        StepKeepsInv(totalSize, states[i], actions[i], states[i + 1]);
      }
    }
  }

  // ----- a punch that is not safe -----

  /** A requested range strictly inside a block is not cut out of it. */
  lemma {:induction false} StrictlyInsideStays(start: int, end: int, r: Range)
    requires start < r.lo <= r.hi < end
    ensures Shrink(start, end, {r}) == Some(Range(start, end))
  {
    ShrinkIs(start, end, {r}, start, end);
  }

  /** The whole part of a file of 1000 bytes is punched while a peer has not yet
      released bytes 50 to 99: the next block of the part overlaps them. */
  lemma {:induction false} PartPunchOverlaps()
    ensures var r, s := Range(50, 99), Flight({}, {Range(50, 99)});
            && Inv(s.missing, s.req)
            && WholeWindows(1000, Bytes(0, 999)) && !PunchSafe(s, Punch(Bytes(0, 999)))
            && NextBlock(PartBounds(0, 1000), [Range(0, 999)], s.req) == Some(Range(0, 999))
            && !Disjoint(Range(0, 999), r)
  {
    var r := Range(50, 99);
    StrictlyInsideStays(0, 999, r);
    var missing := {} + Bytes(0, 999);
    assert 49 in missing && 50 in missing && SameWindow(49, 50);
    assert Joined(missing, r.lo - 1);
  }

  ghost function Bytes(lo: int, hi: int): set<int> {
    set x: int | lo <= x <= hi && Meets(Range(lo, hi), x)
  }
}
