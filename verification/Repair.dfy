/** Corrupt-part recovery of one download (core/download/runner.py): narrow the
    corrupt parts and reopen what is left of them in the queue. */
module Repair {
  import opened Base
  import opened Gaps
  import AichTree
  import AichPath
  import AichSound
  import Salvage
  import opened SalvageWindows
  import opened Registry
  import Queue
  import PartFiles

  function AsGaps(ranges: seq<AichTree.Span>): seq<Gap> {
    seq(|ranges|, i requires 0 <= i < |ranges| => Gap(ranges[i].lo, ranges[i].hi))
  }

  lemma {:induction false} CoveredIsGap(ranges: seq<AichTree.Span>, pos: nat, size: nat)
    requires pos < size && Salvage.Covered(pos, ranges)
    ensures pos in Missing(AsGaps(ranges), size)
  {
    var r :| r in ranges && r.lo <= pos < r.hi;
    var i :| 0 <= i < |ranges| && ranges[i] == r;
    assert Holds(AsGaps(ranges)[i], pos);
  }

  /** Byte pos of the given part, as stored, is not that of the file, or missing from a
      block cut short. */
  ghost predicate Corrupt(data: bytes, disk: bytes, part: AichTree.Span, pos: nat)
    requires AichPath.StartsPart(|data|, part.lo)
  {
    part.lo <= pos < part.lo + AichPath.PartSize(|data|, part.lo) && Salvage.Damaged(data, disk, part.lo, pos)
  }

  lemma {:induction false} CorruptIsMissing(h: Hash, data: bytes, stored: Option<bytes>, disk: bytes, parts: seq<AichTree.Span>,
                         blobs: seq<Option<bytes>>, ranges: seq<AichTree.Span>, i: nat, pos: nat)
    requires |blobs| == |parts| && Salvage.CorruptParts(parts, disk, |data|)
    requires stored.Some? ==> stored.value == AichSound.Master(h, data)
    requires Success(ranges) == Salvage.NarrowAll(h, stored, disk, |data|, parts, blobs, [])
    requires i < |parts| && Corrupt(data, disk, parts[i], pos)
    ensures pos in Missing(AsGaps(ranges), |data|) || Salvage.Collided(h, data, disk, parts[i].lo, blobs[i], pos)
  {
    Salvage.SalvageLosesNothing(h, data, true, stored, disk, parts, blobs, ranges, i, pos);
    if Salvage.Covered(pos, ranges) {
      CoveredIsGap(ranges, pos, |data|);
    }
  }

  /** Every corrupt byte of the corrupt parts is missing, or a collision is at hand. */
  ghost predicate Reopened(h: Hash, data: bytes, disk: bytes, parts: seq<AichTree.Span>, blobs: seq<Option<bytes>>,
                           missing: set<int>)
    requires |blobs| == |parts| && Salvage.CorruptParts(parts, disk, |data|)
  {
    forall i, pos | 0 <= i < |parts| && Corrupt(data, disk, parts[i], pos) ::
      pos in missing || Salvage.Collided(h, data, disk, parts[i].lo, blobs[i], pos)
  }

  lemma {:induction false} RangesReopen(h: Hash, data: bytes, stored: Option<bytes>, disk: bytes,
                                        parts: seq<AichTree.Span>, blobs: seq<Option<bytes>>, ranges: seq<AichTree.Span>)
    requires |blobs| == |parts| && Salvage.CorruptParts(parts, disk, |data|)
    requires stored.Some? ==> stored.value == AichSound.Master(h, data)
    requires Success(ranges) == Salvage.NarrowAll(h, stored, disk, |data|, parts, blobs, [])
    ensures Reopened(h, data, disk, parts, blobs, Missing(AsGaps(ranges), |data|))
  {
    forall i, pos | 0 <= i < |parts| && Corrupt(data, disk, parts[i], pos)
      ensures || pos in Missing(AsGaps(ranges), |data|)
              || Salvage.Collided(h, data, disk, parts[i].lo, blobs[i], pos)
    {
      CorruptIsMissing(h, data, stored, disk, parts, blobs, ranges, i, pos);
    }
  }

  /** The given bytes of the file are exactly those that narrowing is to return. */
  ghost predicate OnlyNeeded(h: Hash, stored: Option<bytes>, disk: bytes, size: nat, parts: seq<AichTree.Span>,
                             blobs: seq<Option<bytes>>, missing: set<int>)
    requires |blobs| == |parts| && Salvage.CorruptParts(parts, disk, size)
  {
    forall pos: nat :: pos < size ==> (pos in missing <==> Salvage.ToReturn(h, stored, disk, size, parts, blobs, pos))
  }

  lemma {:induction false} RangesNeeded(h: Hash, stored: Option<bytes>, disk: bytes, size: nat, parts: seq<AichTree.Span>,
                                        blobs: seq<Option<bytes>>, ranges: seq<AichTree.Span>)
    requires |blobs| == |parts| && Salvage.CorruptParts(parts, disk, size)
    requires Success(ranges) == Salvage.NarrowAll(h, stored, disk, size, parts, blobs, [])
    ensures OnlyNeeded(h, stored, disk, size, parts, blobs, Missing(AsGaps(ranges), size))
  {
    forall pos: nat | pos < size
      ensures pos in Missing(AsGaps(ranges), size) <==> Salvage.ToReturn(h, stored, disk, size, parts, blobs, pos)
    {
      Salvage.NarrowingExact(h, stored, disk, size, parts, blobs, pos);
      if Salvage.Covered(pos, ranges) {
        CoveredIsGap(ranges, pos, size);
      }
      if pos in Missing(AsGaps(ranges), size) {
        var i :| 0 <= i < |AsGaps(ranges)| && Holds(AsGaps(ranges)[i], pos);
        assert ranges[i] in ranges;
      }
    }
  }

  /** The ranges to reopen. */
  method RangesToReopen(h: Hash, stored: Option<bytes>, disk: bytes, size: nat, parts: seq<AichTree.Span>,
                        blobs: seq<Option<bytes>>, ghost data: bytes) returns (r: Result<seq<Gap>, AichTree.Error>)
    requires |blobs| == |parts| && Salvage.CorruptParts(parts, disk, size) && size == |data|
    requires stored.Some? ==> stored.value == AichSound.Master(h, data)
    ensures r.Success? <==> forall blob :: blob in blobs ==> Salvage.Readable(stored, blob)
    ensures r.Success? ==>
              && Reopened(h, data, disk, parts, blobs, Missing(r.value, size))
              && WholeWindows(size, Missing(r.value, size))
              && OnlyNeeded(h, stored, disk, size, parts, blobs, Missing(r.value, size))
  {
    Salvage.NarrowingReturns(h, stored, disk, size, parts, blobs, []);
    var ranges := Salvage.NarrowCorrupt(h, true, stored, disk, size, parts, blobs);
    if ranges.Failure? {
      return Failure(ranges.error);
    }
    RangesReopen(h, data, stored, disk, parts, blobs, ranges.value);
    NarrowedIsWhole(h, stored, disk, size, parts, blobs, []);
    WholeSpansPunchWindows(size, ranges.value);
    RangesNeeded(h, stored, disk, size, parts, blobs, ranges.value);
    r := Success(AsGaps(ranges.value));
  }

  // ----- the ranges in flight -----

  lemma {:induction false} WholeSpansPunchWindows(size: nat, ranges: seq<AichTree.Span>)
    requires AllWhole(size, ranges)
    ensures WholeWindows(size, Missing(AsGaps(ranges), size))
  {
    var gaps := AsGaps(ranges);
    forall x, y | x in Missing(gaps, size) && 0 <= y < size && SameWindow(x, y)
      ensures y in Missing(gaps, size)
    {
      var i :| 0 <= i < |gaps| && Holds(gaps[i], x);
      assert WholeSpan(size, ranges[i]);
      assert Holds(gaps[i], y);
    }
  }

  /** A repair keeps the registry invariant if and only if every range in flight in a
      reopened window covers that window. */
  lemma {:induction false} RepairKeepsInvIff(h: Hash, stored: Option<bytes>, disk: bytes, size: nat, parts: seq<AichTree.Span>,
                                             blobs: seq<Option<bytes>>, ranges: seq<AichTree.Span>, s: Flight)
    requires |blobs| == |parts| && Salvage.CorruptParts(parts, disk, size)
    requires Salvage.NarrowAll(h, stored, disk, size, parts, blobs, []) == Success(ranges)
    requires Inv(s.missing, s.req)
    requires forall y :: y in s.missing ==> 0 <= y < size
    requires forall r :: r in s.req ==> 0 <= r.lo && r.hi < size
    ensures var punched := Missing(AsGaps(ranges), size);
            Inv(s.missing + punched, s.req)
            <==> forall r, x :: r in s.req && x in punched && SameWindow(r.lo, x) ==> CoversWindow(size, r)
  {
    var punched := Missing(AsGaps(ranges), size);
    NarrowedIsWhole(h, stored, disk, size, parts, blobs, []);
    WholeSpansPunchWindows(size, ranges);
    WindowPunchSafeIff(size, s, punched);
    StepKeepsInv(size, s, Punch(punched), s.(missing := s.missing + punched));
  }

  // ----- the download -----

  /** Repairs follow a completed transfer. Where nothing was missing the file has its
      full length, so the bytes reopened are all that differ in the corrupt parts. */
  lemma {:induction false} WholeFileReopened(s: Queue.Store, written: map<Queue.Key, seq<PartFiles.Op>>, key: Queue.Key,
                                             h: Hash, data: bytes, parts: seq<AichTree.Span>, blobs: seq<Option<bytes>>,
                                             missing: set<int>, i: nat, pos: nat)
    requires Queue.StoreOk(s, written) && key in s.rows && key in s.disk && |data| == s.rows[key].size
    requires key in s.sidecars && s.sidecars[key].gaps == []
    requires |blobs| == |parts| && Salvage.CorruptParts(parts, s.disk[key], |data|)
    requires Reopened(h, data, s.disk[key], parts, blobs, missing)
    requires i < |parts| && parts[i].lo <= pos < parts[i].lo + AichPath.PartSize(|data|, parts[i].lo)
    ensures |s.disk[key]| == |data|
    ensures s.disk[key][pos] != data[pos] ==>
              pos in missing || Salvage.Collided(h, data, s.disk[key], parts[i].lo, blobs[i], pos)
  {
    Queue.NoGapsIsWhole(s.rows[key], s.sidecars[key], s.disk[key], written[key]);
    if s.disk[key][pos] != data[pos] {
      assert Corrupt(data, s.disk[key], parts[i], pos);
    }
  }

  /** Punch the ranges in the queue. */
  method Reopen(q: Queue.DownloadQueue, key: Queue.Key, gaps: seq<Gap>)
    requires q.Valid() && key in q.store.rows && key in q.store.disk
    modifies q
    ensures q.Valid() && q.store.disk == old(q.store.disk) && key in old(q.store.sidecars)
    ensures key in q.store.rows && key in q.store.sidecars && q.store.rows[key].status == Queue.Downloading
    ensures var size := old(q.store.rows[key].size);
            Missing(q.store.sidecars[key].gaps, size) == Missing(old(q.store.sidecars[key]).gaps, size) + Missing(gaps, size)
  {
    var _ := q.PunchGaps(key, gaps);
  }

  /** After a repair that returns, the download is not complete and every corrupt
      byte is missing again, or a collision is at hand. What is reopened is whole
      windows. */
  method RepairDownload(q: Queue.DownloadQueue, key: Queue.Key, h: Hash, stored: Option<bytes>,
                        parts: seq<AichTree.Span>, blobs: seq<Option<bytes>>, ghost data: bytes)
    returns (r: Result<(), AichTree.Error>, ghost reopened: set<int>)
    requires q.Valid() && key in q.store.rows && key in q.store.disk && |data| == q.store.rows[key].size
    requires |blobs| == |parts| && Salvage.CorruptParts(parts, q.store.disk[key], |data|)
    requires stored.Some? ==> stored.value == AichSound.Master(h, data)
    modifies q
    ensures q.Valid()
    ensures r.Success? <==> forall blob :: blob in blobs ==> Salvage.Readable(stored, blob)
    ensures r.Failure? ==> q.store == old(q.store)
    ensures q.store.disk == old(q.store.disk)
    ensures r.Success? ==>
              && key in q.store.rows && q.store.rows[key].status == Queue.Downloading
              && key in q.store.sidecars && key in old(q.store.sidecars)
              && Missing(q.store.sidecars[key].gaps, |data|) == Missing(old(q.store.sidecars[key]).gaps, |data|) + reopened
              && Reopened(h, data, old(q.store).disk[key], parts, blobs, reopened) && WholeWindows(|data|, reopened)
              && OnlyNeeded(h, stored, old(q.store).disk[key], |data|, parts, blobs, reopened)
  {
    reopened := {};
    var gaps := RangesToReopen(h, stored, q.store.disk[key], q.store.rows[key].size, parts, blobs, data);
    if gaps.Failure? {
      return Failure(gaps.error), {};
    }
    reopened := Missing(gaps.value, |data|);
    Reopen(q, key, gaps.value);
    r := Success(());
  }
}
