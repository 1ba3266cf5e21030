/** One incomplete download on disk (core/download/partfile.py): the data file,
    its gap list and the stored copy of that list. */
module PartFiles {
  import opened Base
  import opened Gaps

  const ED2K_CHUNK_SIZE := 9_728_400

  datatype PartError = OutsideFile

  /** `seek` and `write`: a gap before `start` is filled with zeros. */
  function Overwrite(data: bytes, start: nat, block: bytes): bytes {
    if block == [] then data
    else
      var padded := if start <= |data| then data else data + seq(start - |data|, i => 0);
      padded[..start] + block + Slice(padded, start + |block|, |padded|)
  }

  lemma {:induction false} OverwriteAt(data: bytes, start: nat, block: bytes, x: nat)
    ensures var out := Overwrite(data, start, block);
            && |out| == (if block == [] then |data| else Max(|data|, start + |block|))
            && (|data| <= x < start && x < |out| ==> out[x] == 0)
            && (start <= x < start + |block| ==> x < |out| && out[x] == block[x - start])
            && (!(start <= x < start + |block|) && x < |data| ==> out[x] == data[x])
  {
  }

  class PartFile {
    const totalSize: nat
    var gaps: seq<Gap>
    var data: bytes
    var sidecar: seq<Gap>

    ghost predicate Valid()
      reads `gaps
    {
      Canonical(gaps, totalSize)
    }

    ghost function MissingBytes(): set<int>
      reads `gaps
    {
      Missing(gaps, totalSize)
    }

    ghost function SavedBytes(): set<int>
      reads `sidecar
    {
      Missing(sidecar, totalSize)
    }

    /** A new part file; `onDisk` is the data file as `open_new` leaves it. */
    constructor (totalSize: nat, onDisk: bytes)
      requires totalSize > 0
      ensures Valid() && this.totalSize == totalSize && data == onDisk
      ensures gaps == sidecar == [Gap(0, totalSize)]
      ensures MissingBytes() == SavedBytes() == Bytes(0, totalSize)
    {
      this.totalSize := totalSize;
      gaps := [Gap(0, totalSize)];
      sidecar := [Gap(0, totalSize)];
      data := onDisk;
      new;
      assert forall x :: InGaps(gaps, x) <==> Holds(gaps[0], x);
    }

    /** The classmethod `resume`: a part file from whatever list is stored. */
    constructor Stored(totalSize: nat, stored: seq<Gap>, onDisk: bytes)
      requires totalSize > 0
      ensures Valid() && this.totalSize == totalSize && data == onDisk && sidecar == stored
      ensures MissingBytes() == SavedBytes()
      ensures Canonical(stored, totalSize) ==> gaps == stored
    {
      this.totalSize := totalSize;
      sidecar := stored;
      data := onDisk;
      var merged := Normalize(stored, totalSize);
      gaps := merged;
      new;
      if Canonical(stored, totalSize) {
        NormalIsCanonical(merged, stored, totalSize);
      }
    }

    /** `_apply_gap_fill` */
    method ApplyGapFill(start: int, end: int)
      requires Valid() && start <= end
      modifies `gaps
      ensures Valid()
      ensures Missing(gaps, totalSize) == Missing(old(gaps), totalSize) - Bytes(start, end)
    {
      var was := gaps;
      var updated: seq<Gap> := [];
      var i := 0;
      while i < |was|
        invariant i <= |was|
        invariant forall x :: InGaps(updated, x) <==> InGaps(was[..i], x) && !(start <= x < end)
      {
        var gap := was[i];
        ghost var before := updated;
        if end <= gap.start || start >= gap.end {
          updated := updated + [gap];
        } else {
          if start > gap.start {
            updated := updated + [Gap(gap.start, start)];
          }
          if end < gap.end {
            updated := updated + [Gap(end, gap.end)];
          }
        }
        FillStep(before, was[..i], gap, start, end, updated);
        assert was[..i + 1] == was[..i] + [gap];
        i := i + 1;
      }
      assert was[..|was|] == was;
      gaps := Normalize(updated, totalSize);
      assert forall x :: InGaps(gaps, x) <==> 0 <= x < totalSize && InGaps(was, x) && !Holds(Gap(start, end), x);
    }

    /** `write_block`: the missing bytes left, or an error that changes nothing. */
    method WriteBlock(start: int, block: bytes) returns (r: Result<nat, PartError>)
      requires Valid()
      modifies `gaps, `data
      ensures Valid()
      ensures r.Failure? <==> start < 0 || start + |block| > totalSize
      ensures r.Failure? ==> gaps == old(gaps) && data == old(data)
      ensures r.Success? ==>
                && r.value == Total(gaps)
                && Missing(gaps, totalSize) == Missing(old(gaps), totalSize) - Bytes(start, start + |block|)
                && data == Overwrite(old(data), start, block)
    {
      if start < 0 || start + |block| > totalSize {
        return Failure(OutsideFile);
      }
      data := Overwrite(data, start, block);
      ApplyGapFill(start, start + |block|);
      var remaining := RemainingBytes();
      r := Success(remaining);
    }

    /** `punch`: reopen a range, clipped to the file. */
    method Punch(start: int, end: int)
      requires Valid()
      modifies `gaps
      ensures Valid()
      ensures MissingBytes() == old(MissingBytes()) + (Bytes(start, end) * Bytes(0, totalSize))
    {
      var lo, hi := Max(0, start), Min(totalSize, end);
      if hi > lo {
        ghost var before := gaps;
        var merged := Normalize(gaps + [Gap(lo, hi)], totalSize);
        gaps := merged;
        forall x
          ensures InGaps(gaps, x) <==> 0 <= x < totalSize && (InGaps(before, x) || Holds(Gap(lo, hi), x))
        {
          AppendGap(before, Gap(lo, hi), x);
        }
      }
    }

    /** The lengths of the gaps add up to the number of missing bytes. */
    lemma {:induction false} TotalIsMissing()
      requires Valid()
      ensures Total(gaps) == |MissingBytes()|
    {
      TotalIsCount(gaps, totalSize);
    }

    /** `remaining_bytes` */
    method RemainingBytes() returns (n: nat)
      requires Valid()
      ensures n == Total(gaps)
    {
      var sum := 0;
      var i := 0;
      while i < |gaps|
        invariant i <= |gaps|
        invariant sum + Total(gaps[i..]) == Total(gaps)
      {
        sum := sum + (gaps[i].end - gaps[i].start);
        i := i + 1;
      }
      TotalIsCount(gaps, totalSize);
      n := sum;
    }

    /** `is_complete` */
    predicate IsComplete()
      reads `gaps
    {
      gaps == []
    }

    lemma {:induction false} CompleteIsGapFree()
      requires Valid()
      ensures IsComplete() <==> MissingBytes() == {}
    {
      if gaps != [] {
        AfterFirst(gaps, totalSize);
        assert gaps[0].start in MissingBytes();
      }
    }

    function ChunkCount(): nat {
      CeilDiv(totalSize, ED2K_CHUNK_SIZE)
    }

    /** `chunk_bitmap`: a chunk is done exactly when none of its bytes is missing. */
    method ChunkBitmap() returns (bitmap: seq<bool>)
      requires Valid()
      ensures totalSize <= |bitmap| * 9_728_400 < totalSize + 9_728_400
      ensures forall i :: 0 <= i < |bitmap| ==>
                (bitmap[i] <==> MissingBytes() !! Bytes(i * 9_728_400, (i + 1) * 9_728_400))
    {
      bitmap := [];
      var index := 0;
      while index < ChunkCount()
        invariant index == |bitmap| <= ChunkCount()
        invariant forall i :: 0 <= i < |bitmap| ==>
                    (bitmap[i] <==> MissingBytes() !! Bytes(i * ED2K_CHUNK_SIZE, (i + 1) * ED2K_CHUNK_SIZE))
      {
        var chunkStart := index * ED2K_CHUNK_SIZE;
        var chunkEnd := Min(chunkStart + ED2K_CHUNK_SIZE, totalSize);
        var complete := true;
        var j := 0;
        while j < |gaps|
          invariant j <= |gaps|
          invariant complete <==> forall k :: 0 <= k < j ==> !(gaps[k].start < chunkEnd && gaps[k].end > chunkStart)
        {
          if gaps[j].start < chunkEnd && gaps[j].end > chunkStart {
            complete := false;
          }
          j := j + 1;
        }
        ChunkTouched(gaps, totalSize, chunkStart, chunkEnd);
        assert MissingBytes() * Bytes(chunkStart, chunkEnd) == MissingBytes() * Bytes(chunkStart, chunkStart + ED2K_CHUNK_SIZE);
        bitmap := bitmap + [complete];
        index := index + 1;
      }
    }

    /** `save` */
    method Save()
      requires Valid()
      modifies `sidecar
      ensures Valid() && sidecar == gaps
    {
      sidecar := gaps;
    }

    /** `resume`: back to the stored list, which normalising leaves as it is when
        `save` wrote it. */
    method Resume()
      modifies `gaps
      ensures Valid() && MissingBytes() == SavedBytes()
      ensures Canonical(sidecar, totalSize) ==> gaps == sidecar
    {
      gaps := Normalize(sidecar, totalSize);
      if Canonical(sidecar, totalSize) {
        NormalIsCanonical(gaps, sidecar, totalSize);
      }
    }
  }

  lemma {:induction false} NormalIsCanonical(merged: seq<Gap>, stored: seq<Gap>, total: nat)
    requires Canonical(merged, total) && Canonical(stored, total)
    requires forall x :: InGaps(merged, x) <==> 0 <= x < total && InGaps(stored, x)
    ensures merged == stored
  {
    CanonicalUnique(merged, stored, total);
  }

  lemma {:induction false} FillStep(before: seq<Gap>, done: seq<Gap>, gap: Gap, start: int, end: int, updated: seq<Gap>)
    requires start <= end && gap.start < gap.end
    requires forall x :: InGaps(before, x) <==> InGaps(done, x) && !(start <= x < end)
    requires updated == if end <= gap.start || start >= gap.end then before + [gap]
                        else before + (if start > gap.start then [Gap(gap.start, start)] else [])
                                    + (if end < gap.end then [Gap(end, gap.end)] else [])
    ensures forall x :: InGaps(updated, x) <==> InGaps(done + [gap], x) && !(start <= x < end)
  {
    forall x
      ensures InGaps(updated, x) <==> InGaps(done + [gap], x) && !(start <= x < end)
    {
      AppendGap(done, gap, x);
      if end <= gap.start || start >= gap.end {
        AppendGap(before, gap, x);
      } else {
        var head := if start > gap.start then before + [Gap(gap.start, start)] else before;
        AppendGap(before, Gap(gap.start, start), x);
        AppendGap(head, Gap(end, gap.end), x);
        assert updated == if end < gap.end then head + [Gap(end, gap.end)] else head;
      }
    }
  }

  /** A non-empty gap overlaps a chunk exactly when a missing byte lies in it. */
  lemma {:induction false} ChunkTouched(gaps: seq<Gap>, total: nat, lo: int, hi: int)
    requires Canonical(gaps, total) && lo < hi
    ensures (forall k :: 0 <= k < |gaps| ==> !(gaps[k].start < hi && gaps[k].end > lo))
            <==> Missing(gaps, total) !! Bytes(lo, hi)
  {
    if k :| 0 <= k < |gaps| && gaps[k].start < hi && gaps[k].end > lo {
      var x := Max(gaps[k].start, lo);
      assert Holds(gaps[k], x);
      assert x in Missing(gaps, total) && x in Bytes(lo, hi);
    }
  }

  // ----- every run -----

  datatype Op =
    | Write(start: int, block: bytes)
    | Punch(start: int, end: int)
    | Save
    | Resume

  predicate Writes(op: Op, total: nat, x: int) {
    op.Write? && 0 <= op.start && op.start + |op.block| <= total && op.start <= x < op.start + |op.block|
  }

  predicate Punches(op: Op, total: nat, x: int) {
    op.Punch? && op.start <= x < op.end && 0 <= x < total
  }

  /** The operations a part file still shows: a resume drops those not saved. */
  function Shown(ops: seq<Op>): seq<Op> {
    if ops == [] then []
    else
      var init, op := ops[..|ops| - 1], ops[|ops| - 1];
      match op
      case Save => Shown(init)
      case Resume => Saved(init)
      case _ => Shown(init) + [op]
  }

  function Saved(ops: seq<Op>): seq<Op> {
    if ops == [] then []
    else
      var init := ops[..|ops| - 1];
      if ops[|ops| - 1].Save? then Shown(init) else Saved(init)
  }

  /** Byte x has not been written since it was last punched. */
  ghost predicate Open(ops: seq<Op>, total: nat, x: int) {
    forall i :: 0 <= i < |ops| && Writes(ops[i], total, x) ==> exists j :: i < j < |ops| && Punches(ops[j], total, x)
  }

  /** b is the value of the last write of byte x. */
  ghost predicate LastWritten(ops: seq<Op>, total: nat, x: int, b: byte) {
    exists i :: 0 <= i < |ops| && Writes(ops[i], total, x) && ops[i].block[x - ops[i].start] == b
                && forall j :: i < j < |ops| ==> !Writes(ops[j], total, x)
  }

  lemma {:induction false} OpenStep(ops: seq<Op>, op: Op, total: nat, x: int)
    ensures Open(ops + [op], total, x) <==> Punches(op, total, x) || (Open(ops, total, x) && !Writes(op, total, x))
  {
    var all := ops + [op];
    if Punches(op, total, x) {
      assert Punches(all[|ops|], total, x);
    } else if Open(all, total, x) {
      forall i | 0 <= i < |ops| && Writes(ops[i], total, x)
        ensures exists j :: i < j < |ops| && Punches(ops[j], total, x)
      {
        assert all[i] == ops[i];
        var j :| i < j < |all| && Punches(all[j], total, x);
        assert ops[j] == all[j];
      }
      assert all[|ops|] == op;
    } else if Open(ops, total, x) && !Writes(op, total, x) {
      forall i | 0 <= i < |all| && Writes(all[i], total, x)
        ensures exists j :: i < j < |all| && Punches(all[j], total, x)
      {
        assert all[i] == ops[i];
        var j :| i < j < |ops| && Punches(ops[j], total, x);
        assert all[j] == ops[j];
      }
    }
  }

  lemma {:induction false} LastWrittenStep(ops: seq<Op>, op: Op, total: nat, x: int, b: byte)
    ensures LastWritten(ops + [op], total, x, b)
            <==> if Writes(op, total, x) then op.block[x - op.start] == b else LastWritten(ops, total, x, b)
  {
    var all := ops + [op];
    assert all[|ops|] == op;
    if LastWritten(ops, total, x, b) && !Writes(op, total, x) {
      var i :| 0 <= i < |ops| && Writes(ops[i], total, x) && ops[i].block[x - ops[i].start] == b
               && forall j :: i < j < |ops| ==> !Writes(ops[j], total, x);
      assert all[i] == ops[i];
      assert forall j :: i < j < |ops| ==> all[j] == ops[j];
    }
    if LastWritten(all, total, x, b) && !Writes(op, total, x) {
      var i :| 0 <= i < |all| && Writes(all[i], total, x) && all[i].block[x - all[i].start] == b
               && forall j :: i < j < |all| ==> !Writes(all[j], total, x);
      assert all[i] == ops[i];
      assert forall j :: i < j < |ops| ==> all[j] == ops[j];
    }
  }

  /** A part file as sets of bytes: missing now, missing in the stored list, and
      the data file. */
  datatype Image = Image(missing: set<int>, saved: set<int>, data: bytes)

  ghost function Step(total: nat, m: Image, op: Op): Image {
    match op
    case Write(start, block) =>
      if start < 0 || start + |block| > total then m
      else m.(missing := m.missing - Bytes(start, start + |block|), data := Overwrite(m.data, start, block))
    case Punch(start, end) => m.(missing := m.missing + (Bytes(start, end) * Bytes(0, total)))
    case Save => m.(saved := m.missing)
    case Resume => m.(missing := m.saved)
  }

  /** What a run leaves: missing are exactly the bytes not written since their
      last punch, and every other byte on disk is the one last written. */
  ghost predicate Shows(m: Image, total: nat, ops: seq<Op>) {
    && (forall x :: x in m.missing <==> 0 <= x < total && Open(Shown(ops), total, x))
    && (forall x :: x in m.saved <==> 0 <= x < total && Open(Saved(ops), total, x))
    && (forall x :: 0 <= x < total && (x !in m.missing || x !in m.saved) ==> DiskHolds(m.data, total, ops, x))
  }

  ghost predicate DiskHolds(data: bytes, total: nat, ops: seq<Op>, x: nat) {
    x < |data| && LastWritten(ops, total, x, data[x])
  }

  lemma {:induction false} DiskStep(m: Image, total: nat, op: Op, ops: seq<Op>, x: nat)
    requires x < total
    requires Writes(op, total, x) || DiskHolds(m.data, total, ops, x)
    ensures DiskHolds(Step(total, m, op).data, total, ops + [op], x)
  {
    var data := Step(total, m, op).data;
    if op.Write? && 0 <= op.start && op.start + |op.block| <= total {
      OverwriteAt(m.data, op.start, op.block, x);
    }
    LastWrittenStep(ops, op, total, x, data[x]);
  }

  lemma {:induction false} MissingStep(m: Image, total: nat, op: Op, ops: seq<Op>, x: int)
    requires Shows(m, total, ops)
    ensures x in Step(total, m, op).missing <==> 0 <= x < total && Open(Shown(ops + [op]), total, x)
  {
    assert (ops + [op])[..|ops|] == ops;
    OpenStep(Shown(ops), op, total, x);
  }

  lemma {:induction false} SavedStep(m: Image, total: nat, op: Op, ops: seq<Op>, x: int)
    requires Shows(m, total, ops)
    ensures x in Step(total, m, op).saved <==> 0 <= x < total && Open(Saved(ops + [op]), total, x)
  {
    assert (ops + [op])[..|ops|] == ops;
  }

  /** Every operation keeps it: after any run the part file shows its history. */
  lemma {:induction false} StepShows(m: Image, total: nat, op: Op, ops: seq<Op>)
    requires Shows(m, total, ops)
    ensures Shows(Step(total, m, op), total, ops + [op])
  {
    var next := Step(total, m, op);
    forall x
      ensures x in next.missing <==> 0 <= x < total && Open(Shown(ops + [op]), total, x)
      ensures x in next.saved <==> 0 <= x < total && Open(Saved(ops + [op]), total, x)
    {
      MissingStep(m, total, op, ops, x);
      SavedStep(m, total, op, ops, x);
    }
    forall x | 0 <= x < total && (x !in next.missing || x !in next.saved)
      ensures DiskHolds(next.data, total, ops + [op], x)
    {
      DiskStep(m, total, op, ops, x);
    }
  }

  ghost function ImageOf(p: PartFile): Image
    reads p
  {
    Image(p.MissingBytes(), p.SavedBytes(), p.data)
  }

  /** One operation of a run. */
  method Apply(p: PartFile, op: Op)
    requires p.Valid()
    modifies p
    ensures p.Valid() && ImageOf(p) == Step(p.totalSize, old(ImageOf(p)), op)
  {
    match op {
      case Write(start, block) =>
        var _ := p.WriteBlock(start, block);
      case Punch(start, end) =>
        p.Punch(start, end);
      case Save =>
        p.Save();
      case Resume =>
        p.Resume();
    }
  }

  /** Any run of writes, punches, saves and resumes on a new part file. */
  method Run(totalSize: nat, onDisk: bytes, ops: seq<Op>) returns (p: PartFile)
    requires totalSize > 0
    ensures fresh(p) && p.totalSize == totalSize && p.Valid()
    ensures Shows(ImageOf(p), totalSize, ops)
  {
    p := new PartFile(totalSize, onDisk);
    var i := 0;
    while i < |ops|
      invariant i <= |ops| && fresh(p) && p.totalSize == totalSize && p.Valid()
      invariant Shows(ImageOf(p), totalSize, ops[..i])
    {
      ghost var before := ImageOf(p);
      Apply(p, ops[i]);
      StepShows(before, totalSize, ops[i], ops[..i]);
      assert ops[..i + 1] == ops[..i] + [ops[i]];
      i := i + 1;
    }
    assert ops[..|ops|] == ops;
  }
}
