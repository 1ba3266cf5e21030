/** The registry of ranges in flight and the per-peer selector closure
    (core/download/runner.py). */
module Selector {
  import opened Base
  import opened Ics
  import opened IcsBlocks
  import opened Registry
  import opened Progress
  import G = Gaps
  import opened PartFiles

  /** `_requested_ranges`: in-flight ranges by file hash. */
  class InFlight {
    var requested: map<bytes, set<Range>>

    constructor ()
      ensures requested == map[]
    {
      requested := map[];
    }

    function Bucket(fileHash: bytes): set<Range>
      reads this
    {
      if fileHash in requested then requested[fileHash] else {}
    }

    /** `_register_ranges` */
    method Register(fileHash: bytes, ranges: seq<Range>)
      modifies this
      ensures Bucket(fileHash) == old(Bucket(fileHash)) + SetOf(ranges)
      ensures forall other :: other != fileHash ==> Bucket(other) == old(Bucket(other))
    {
      var bucket := Bucket(fileHash);
      var i := 0;
      while i < |ranges|
        invariant i <= |ranges| && bucket == old(Bucket(fileHash)) + SetOf(ranges[..i])
        invariant requested == old(requested)
      {
        bucket := bucket + {ranges[i]};
        assert ranges[..i + 1] == ranges[..i] + [ranges[i]];
        i := i + 1;
      }
      assert ranges[..|ranges|] == ranges;
      requested := requested[fileHash := bucket];
    }

    /** `_release_ranges`: an empty bucket is dropped. */
    method ReleaseRanges(fileHash: bytes, ranges: seq<Range>)
      modifies this
      ensures Bucket(fileHash) == old(Bucket(fileHash)) - SetOf(ranges)
      ensures forall other :: other != fileHash ==> Bucket(other) == old(Bucket(other))
      ensures fileHash in requested ==> requested[fileHash] != {}
    {
      if fileHash !in requested {
        return;
      }
      var bucket := requested[fileHash];
      var i := 0;
      while i < |ranges|
        invariant i <= |ranges| && bucket == old(Bucket(fileHash)) - SetOf(ranges[..i])
        invariant requested == old(requested)
      {
        bucket := bucket - {ranges[i]};
        assert ranges[..i + 1] == ranges[..i] + [ranges[i]];
        i := i + 1;
      }
      assert ranges[..|ranges|] == ranges;
      requested := if bucket == {} then requested - {fileHash} else requested[fileHash := bucket];
    }
  }

  // ----- inputs of a selection -----

  /** `list(requested)`, in some order */
  method ListOf(req: set<Range>) returns (ranges: seq<Range>)
    ensures SetOf(ranges) == req
  {
    ranges := [];
    var rest := req;
    while rest != {}
      invariant rest <= req && SetOf(ranges) == req - rest
      decreases |rest|
    {
      var r :| r in rest;
      SetOfAppend(ranges, r);
      ranges := ranges + [r];
      rest := rest - {r};
    }
  }

  /** [start, end) gaps as inclusive ranges. */
  method InclusiveGaps(gaps: seq<G.Gap>, totalSize: nat) returns (ranges: seq<Range>)
    requires G.Canonical(gaps, totalSize)
    ensures Lists(ranges, G.Missing(gaps, totalSize), totalSize)
  {
    ranges := [];
    var i := 0;
    while i < |gaps|
      invariant i == |ranges| <= |gaps|
      invariant forall j :: 0 <= j < i ==> ranges[j] == Range(gaps[j].start, gaps[j].end - 1)
    {
      ranges := ranges + [Range(gaps[i].start, gaps[i].end - 1)];
      i := i + 1;
    }
    forall x
      ensures x in G.Missing(gaps, totalSize) <==> InRanges(ranges, x)
    {
      if G.InGaps(gaps, x) {
        var j :| 0 <= j < |gaps| && G.Holds(gaps[j], x);
        assert Meets(ranges[j], x);
      }
      if InRanges(ranges, x) {
        var j :| 0 <= j < |ranges| && Meets(ranges[j], x);
        assert G.Holds(gaps[j], x);
      }
    }
  }

  function CountAt(counts: map<int, nat>, part: int): nat {
    if part in counts then counts[part] else 0
  }

  /** Per part, how many ranges in flight touch it that this peer did not issue. */
  method CountOthers(req: set<Range>, own: set<Range>) returns (counts: map<int, nat>)
    ensures forall p :: CountAt(counts, p) == |TouchingPart(req - own, p)|
  {
    counts := map[];
    var rest: set<Range> := req;
    ghost var done: set<Range> := {};
    assert forall p :: TouchingPart(done, p) == {};
    while rest != {}
      invariant rest <= req && done == req - own - rest
      invariant forall p :: CountAt(counts, p) == |TouchingPart(done, p)|
      decreases |rest|
    {
      var r :| r in rest;
      rest := rest - {r};
      if r !in own {
        counts := CountRange(counts, r, done);
        done := done + {r};
      }
    }
    assert done == req - own;
  }

  method CountRange(before: map<int, nat>, r: Range, ghost done: set<Range>) returns (counts: map<int, nat>)
    requires r !in done && forall p :: CountAt(before, p) == |TouchingPart(done, p)|
    ensures forall p :: CountAt(counts, p) == |TouchingPart(done + {r}, p)|
  {
    counts := before;
    var p, last := r.lo / PART_SIZE, r.hi / PART_SIZE;
    while p <= last
      invariant r.lo / PART_SIZE <= p
      invariant forall q :: CountAt(counts, q) ==
                  |TouchingPart(done, q)| + if r.lo / PART_SIZE <= q < p && q <= last then 1 else 0
      decreases last - p
    {
      counts := counts[p := CountAt(counts, p) + 1];
      p := p + 1;
    }
    forall q
      ensures CountAt(counts, q) == |TouchingPart(done + {r}, q)|
    {
      if Touches(r, q) {
        assert TouchingPart(done + {r}, q) == TouchingPart(done, q) + {r};
      } else {
        assert TouchingPart(done + {r}, q) == TouchingPart(done, q);
      }
    }
  }

  lemma {:induction false} StepKeepsInvFrom(totalSize: int, s: Flight, a: Action, t: Flight)
    requires Next(totalSize, s, a, t) && !a.Punch?
    ensures Inv(s.missing, s.req) ==> Inv(t.missing, t.req)
  {
    if Inv(s.missing, s.req) {
      StepKeepsInv(totalSize, s, a, t);
    }
  }

  /** The closures `_selector` and `_release` of one peer session. */
  class PeerSelector {
    const fileHash: bytes
    const flight: InFlight
    const file: PartFile
    var ownIssued: set<Range>
    var lastPart: Option<int>

    constructor (fileHash: bytes, flight: InFlight, file: PartFile)
      ensures this.fileHash == fileHash && this.flight == flight && this.file == file
      ensures ownIssued == {} && lastPart == None
    {
      this.fileHash, this.flight, this.file := fileHash, flight, file;
      ownIssued, lastPart := {}, None;
    }

    ghost function State(): Flight
      reads this, flight, file
    {
      Flight(file.MissingBytes(), flight.Bucket(fileHash))
    }

    method AskNow(available: set<int>, frequencies: seq<int>) returns (a: Ask)
      requires file.Valid()
      ensures a.totalSize == file.totalSize && a.available == available && a.frequencies == frequencies
      ensures Lists(a.gaps, State().missing, a.totalSize) && CountsOthers(a, State().req - ownIssued)
    {
      var gaps := InclusiveGaps(file.gaps, file.totalSize);
      var downloading := CountOthers(flight.Bucket(fileHash), ownIssued);
      a := Ask(file.totalSize, gaps, available, frequencies, downloading);
    }

    /** A select step of the shared state machine; other files are untouched. The
        blocks are those of a legal sequence of turns, asked with the gaps of the
        file and the counts of the other peers. */
    method Select(available: set<int>, frequencies: seq<int>, n: nat)
      returns (ranges: seq<Range>, ghost a: Ask, ghost turns: seq<Turn>)
      requires file.Valid()
      modifies this, flight
      ensures |ranges| <= n && Next(file.totalSize, old(State()), Action.Select(available, ranges), State())
      ensures old(Inv(State().missing, State().req)) ==> Inv(State().missing, State().req)
      ensures forall other :: other != fileHash ==> flight.Bucket(other) == old(flight.Bucket(other))
      ensures ownIssued == old(ownIssued) + SetOf(ranges)
      ensures a.totalSize == file.totalSize && a.available == available && a.frequencies == frequencies
      ensures Lists(a.gaps, old(State()).missing, a.totalSize) && CountsOthers(a, old(State()).req - old(ownIssued))
      ensures Legal(a, old(State()).req, old(lastPart), turns) && Ended(a, turns, n) && ranges == Blocks(turns)
      ensures lastPart == if ranges == [] then old(lastPart) else LastOf(old(lastPart), turns)
    {
      var req := flight.Bucket(fileHash);
      var requested := ListOf(req);
      var ask := AskNow(available, frequencies);
      var last: Option<int>;
      ranges, last, turns := SelectBlocks(ask, lastPart, requested, n);
      a := ask;
      ghost var before := State();
      if ranges != [] {
        ownIssued := ownIssued + (set r | r in ranges);
        flight.Register(fileHash, ranges);
        lastPart := last;
      }
      assert State() == before.(req := before.req + SetOf(ranges));
      StepKeepsInvFrom(file.totalSize, before, Action.Select(available, ranges), State());
    }

    /** A release step. */
    method Release(ranges: seq<Range>)
      modifies this, flight
      ensures Next(file.totalSize, old(State()), Action.Release(SetOf(ranges)), State())
      ensures old(Inv(State().missing, State().req)) ==> Inv(State().missing, State().req)
      ensures ownIssued == old(ownIssued) - SetOf(ranges) && lastPart == old(lastPart)
    {
      ghost var before := State();
      ownIssued := ownIssued - (set r | r in ranges);
      flight.ReleaseRanges(fileHash, ranges);
      StepKeepsInvFrom(file.totalSize, before, Action.Release(SetOf(ranges)), State());
    }
  }
}
