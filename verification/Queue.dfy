/** The download queue (core/download/queue.py): one row a download, a stored
    gap list and data file beside it, and the finished files. */
module Queue {
  import opened Base
  import opened Gaps
  import PartFiles
  import Ed2k

  /** A normalised eD2k file hash. */
  type Key = bytes

  datatype Status = Queued | Downloading | Paused | Complete

  datatype Row = Row(name: string, size: nat, status: Status, downloaded: int)

  datatype Sidecar = Sidecar(total: nat, gaps: seq<Gap>)

  datatype QueueError =
    | NotFound | BadSize | NoSpace | NoDataFile | OutsideFile | OnlyPaused | NotComplete | HashMismatch

  datatype Store = Store(rows: map<Key, Row>, sidecars: map<Key, Sidecar>, disk: map<Key, bytes>,
                         incoming: map<string, bytes>)

  datatype Progress = Progress(remaining: nat, complete: bool)

  /** The eD2k hash of a file: below 9,728,000 bytes its MD4, from there on the MD4 of
      the digests of its chunks of that size, the last one short or empty. */
  ghost predicate IsEd2kHash(md4: Ed2k.Md4, data: bytes, digest: bytes) {
    exists chunks :: Ed2k.ChunkDigests(md4, 9_728_000, data, chunks)
                     && digest == Ed2k.Digest(md4, if |data| < 9_728_000 then data else Ed2k.Join(chunks))
  }

  /** `_file_hash` */
  method FileHash(md4: Ed2k.Md4, data: bytes) returns (digest: bytes)
    ensures forall x :: IsEd2kHash(md4, data, x) <==> x == digest
  {
    var r := Ed2k.HashFile(md4, data);
    forall chunks | Ed2k.ChunkDigests(md4, 9_728_000, data, chunks)
      ensures chunks == r.chunkHashes
    {
      Ed2k.SameChunks(md4, 9_728_000, data, chunks, r.chunkHashes);
    }
    digest := r.fileHash;
  }

  // ----- what holds of every row -----

  /** The row agrees with its stored gap list, and the data file holds the last
      written value of every byte that is not missing. `written` is the row's
      history since it was added. */
  ghost predicate RowOk(row: Row, side: Sidecar, file: Option<bytes>, written: seq<PartFiles.Op>) {
    var missing := Missing(side.gaps, row.size);
    && row.size > 0
    && side.total == row.size
    && Canonical(side.gaps, row.size)
    && row.downloaded == row.size - |missing|
    && (row.status == Complete ==> side.gaps == [])
    && (file.Some? ==> |file.value| <= row.size
                       && PartFiles.Shows(PartFiles.Image(missing, missing, file.value), row.size, written))
  }

  function FileOf(disk: map<Key, bytes>, key: Key): Option<bytes> {
    if key in disk then Some(disk[key]) else None
  }

  ghost predicate StoreOk(s: Store, written: map<Key, seq<PartFiles.Op>>) {
    forall key :: key in s.rows ==>
      key in s.sidecars && key in written && RowOk(s.rows[key], s.sidecars[key], FileOf(s.disk, key), written[key])
  }

  /** `file` holds, for every byte below `size`, the value last written to it. */
  ghost predicate IsWhole(file: bytes, size: nat, written: seq<PartFiles.Op>) {
    |file| == size && forall x :: 0 <= x < size ==> PartFiles.LastWritten(written, size, x, file[x])
  }

  /** A row without gaps has a whole data file. */
  lemma {:induction false} NoGapsIsWhole(row: Row, side: Sidecar, file: bytes, written: seq<PartFiles.Op>)
    requires RowOk(row, side, Some(file), written) && side.gaps == []
    ensures IsWhole(file, row.size, written)
  {
    var missing := Missing(side.gaps, row.size);
    forall x | 0 <= x < row.size
      ensures x < |file| && PartFiles.LastWritten(written, row.size, x, file[x])
    {
      assert x !in missing;
      assert PartFiles.DiskHolds(file, row.size, written, x);
    }
    assert PartFiles.DiskHolds(file, row.size, written, row.size - 1);
  }

  /** A new part file shows the empty history. */
  lemma {:induction false} FreshRowOk(name: string, size: nat, file: bytes)
    requires 0 < size && |file| <= size
    ensures RowOk(Row(name, size, Queued, 0), Sidecar(size, [Gap(0, size)]), Some(file), [])
  {
    var gaps := [Gap(0, size)];
    assert forall x :: InGaps(gaps, x) <==> Holds(gaps[0], x);
    assert Missing(gaps, size) == Bytes(0, size);
    IntervalSize(0, size);
  }

  lemma {:induction false} OverwriteFits(data: bytes, start: nat, block: bytes, size: nat)
    requires |data| <= size && start + |block| <= size
    ensures |PartFiles.Overwrite(data, start, block)| <= size
  {
  }

  /** Writing a block and saving. */
  lemma {:induction false} WriteShows(missing: set<int>, file: bytes, size: nat, written: seq<PartFiles.Op>, start: nat, block: bytes)
    requires PartFiles.Shows(PartFiles.Image(missing, missing, file), size, written)
    requires start + |block| <= size
    ensures var left := missing - Bytes(start, start + |block|);
            PartFiles.Shows(PartFiles.Image(left, left, PartFiles.Overwrite(file, start, block)), size,
                            written + [PartFiles.Write(start, block), PartFiles.Save])
  {
    var m := PartFiles.Image(missing, missing, file);
    var op := PartFiles.Write(start, block);
    PartFiles.StepShows(m, size, op, written);
    PartFiles.StepShows(PartFiles.Step(size, m, op), size, PartFiles.Save, written + [op]);
    assert written + [op] + [PartFiles.Save] == written + [op, PartFiles.Save];
  }

  function Punches(ranges: seq<Gap>): seq<PartFiles.Op> {
    if ranges == [] then []
    else
      var last := |ranges| - 1;
      Punches(ranges[..last]) + [PartFiles.Punch(ranges[last].start, ranges[last].end)]
  }

  /** Punching every range and saving. */
  lemma {:induction false} PunchesShow(m: PartFiles.Image, size: nat, written: seq<PartFiles.Op>, ranges: seq<Gap>)
    requires PartFiles.Shows(m, size, written)
    ensures PartFiles.Shows(m.(missing := m.missing + Missing(ranges, size)), size, written + Punches(ranges))
    decreases |ranges|
  {
    if ranges == [] {
      assert written + Punches(ranges) == written;
      assert m.missing + Missing(ranges, size) == m.missing;
    } else {
      var last := |ranges| - 1;
      var front, g := ranges[..last], ranges[last];
      var op := PartFiles.Punch(g.start, g.end);
      PunchesShow(m, size, written, front);
      var mid := m.(missing := m.missing + Missing(front, size));
      PartFiles.StepShows(mid, size, op, written + Punches(front));
      assert written + Punches(front) + [op] == written + Punches(ranges);
      assert ranges == front + [g];
      MissingAppend(front, g, size);
      assert PartFiles.Step(size, mid, op) == m.(missing := m.missing + Missing(ranges, size));
    }
  }

  lemma {:induction false} MissingAppend(ranges: seq<Gap>, g: Gap, size: nat)
    ensures Missing(ranges + [g], size) == Missing(ranges, size) + (Bytes(g.start, g.end) * Bytes(0, size))
  {
    forall x
      ensures x in Missing(ranges + [g], size) <==> x in Missing(ranges, size) + (Bytes(g.start, g.end) * Bytes(0, size))
    {
      AppendGap(ranges, g, x);
    }
  }

  lemma {:induction false} PunchesShowSaved(missing: set<int>, file: bytes, size: nat, written: seq<PartFiles.Op>, ranges: seq<Gap>)
    requires PartFiles.Shows(PartFiles.Image(missing, missing, file), size, written)
    ensures var left := missing + Missing(ranges, size);
            PartFiles.Shows(PartFiles.Image(left, left, file), size, written + (Punches(ranges) + [PartFiles.Save]))
  {
    var m := PartFiles.Image(missing, missing, file);
    PunchesShow(m, size, written, ranges);
    PartFiles.StepShows(m.(missing := missing + Missing(ranges, size)), size, PartFiles.Save, written + Punches(ranges));
    assert written + Punches(ranges) + [PartFiles.Save] == written + (Punches(ranges) + [PartFiles.Save]);
  }

  // ----- one row, its stored list and its data file -----

  lemma {:induction false} WrittenRowOk(row: Row, side: Sidecar, file: bytes, written: seq<PartFiles.Op>, start: nat, block: bytes,
                     gaps: seq<Gap>, remaining: nat, status: Status)
    requires RowOk(row, side, Some(file), written)
    requires start + |block| <= row.size && Canonical(gaps, row.size) && remaining == |Missing(gaps, row.size)|
    requires Missing(gaps, row.size) == Missing(side.gaps, row.size) - Bytes(start, start + |block|)
    requires status == Complete ==> gaps == []
    ensures RowOk(row.(downloaded := row.size - remaining, status := status), Sidecar(row.size, gaps),
                  Some(PartFiles.Overwrite(file, start, block)),
                  written + [PartFiles.Write(start, block), PartFiles.Save])
  {
    WriteShows(Missing(side.gaps, row.size), file, row.size, written, start, block);
    OverwriteFits(file, start, block, row.size);
  }

  lemma {:induction false} PunchedRowOk(row: Row, side: Sidecar, file: bytes, written: seq<PartFiles.Op>, ranges: seq<Gap>, gaps: seq<Gap>)
    requires RowOk(row, side, Some(file), written) && Canonical(gaps, row.size)
    requires Missing(gaps, row.size) == Missing(side.gaps, row.size) + Missing(ranges, row.size)
    ensures RowOk(row.(downloaded := row.size - |Missing(gaps, row.size)|, status := Downloading),
                  Sidecar(row.size, gaps), Some(file), written + (Punches(ranges) + [PartFiles.Save]))
  {
    PunchesShowSaved(Missing(side.gaps, row.size), file, row.size, written, ranges);
  }

  /** The row and list after `left` bytes of the file are missing. */
  ghost predicate Leaves(row: Row, left: set<int>, status: Status, row': Row, side': Sidecar) {
    && Missing(side'.gaps, row.size) == left
    && side'.total == row.size
    && row' == row.(downloaded := row.size - |left|, status := status)
  }

  /** Write a block through a part file opened from the stored list, and save it. */
  method WriteRow(row: Row, side: Sidecar, file: bytes, start: int, block: bytes, ghost written: seq<PartFiles.Op>)
    returns (r: Result<Progress, QueueError>, row': Row, side': Sidecar, file': bytes)
    requires RowOk(row, side, Some(file), written)
    ensures r.Failure? ==> r.error == OutsideFile
    ensures r.Success? <==> 0 <= start && start + |block| <= row.size
    ensures r.Success? ==>
              && file' == PartFiles.Overwrite(file, start, block)
              && r.value == Progress(|Missing(side'.gaps, row.size)|, side'.gaps == [])
              && Leaves(row, Missing(side.gaps, row.size) - Bytes(start, start + |block|),
                        if r.value.complete then Complete else Downloading, row', side')
              && RowOk(row', side', Some(file'), written + [PartFiles.Write(start, block), PartFiles.Save])
  {
    row', side', file' := row, side, file;
    var stored, gaps, onDisk := WriteStored(side, file, start, block);
    if stored.Failure? {
      return Failure(OutsideFile), row, side, file;
    }
    var remaining, status := stored.value, if gaps == [] then Complete else Downloading;
    row' := row.(downloaded := row.size - remaining, status := status);
    side', file' := Sidecar(row.size, gaps), onDisk;
    WrittenRowOk(row, side, file, written, start, block, gaps, remaining, status);
    r := Success(Progress(remaining, gaps == []));
  }

  method WriteStored(side: Sidecar, file: bytes, start: int, block: bytes)
    returns (r: Result<nat, QueueError>, gaps: seq<Gap>, file': bytes)
    requires side.total > 0 && Canonical(side.gaps, side.total)
    ensures r.Failure? <==> start < 0 || start + |block| > side.total
    ensures r.Success? ==>
              && Canonical(gaps, side.total)
              && Missing(gaps, side.total) == Missing(side.gaps, side.total) - Bytes(start, start + |block|)
              && r.value == |Missing(gaps, side.total)|
              && file' == PartFiles.Overwrite(file, start, block)
  {
    var part := new PartFiles.PartFile.Stored(side.total, side.gaps, file);
    var remaining := part.WriteBlock(start, block);
    if remaining.Failure? {
      return Failure(OutsideFile), side.gaps, file;
    }
    part.TotalIsMissing();
    part.Save();
    r, gaps, file' := Success(remaining.value), part.sidecar, part.data;
  }

  /** Punch ranges through a part file opened from the stored list, and save it. */
  method PunchRow(row: Row, side: Sidecar, file: bytes, ranges: seq<Gap>, ghost written: seq<PartFiles.Op>)
    returns (row': Row, side': Sidecar)
    requires RowOk(row, side, Some(file), written)
    ensures Leaves(row, Missing(side.gaps, row.size) + Missing(ranges, row.size), Downloading, row', side')
    ensures RowOk(row', side', Some(file), written + (Punches(ranges) + [PartFiles.Save]))
  {
    var gaps, remaining := PunchStored(side, file, ranges);
    row' := row.(downloaded := row.size - remaining, status := Downloading);
    side' := Sidecar(row.size, gaps);
    PunchedRowOk(row, side, file, written, ranges, gaps);
  }

  method PunchStored(side: Sidecar, file: bytes, ranges: seq<Gap>) returns (gaps: seq<Gap>, remaining: nat)
    requires side.total > 0 && Canonical(side.gaps, side.total)
    ensures Canonical(gaps, side.total)
    ensures Missing(gaps, side.total) == Missing(side.gaps, side.total) + Missing(ranges, side.total)
    ensures remaining == |Missing(gaps, side.total)|
  {
    var part := new PartFiles.PartFile.Stored(side.total, side.gaps, file);
    var i := 0;
    assert Missing(side.gaps, side.total) + Missing([], side.total) == part.MissingBytes();
    while i < |ranges|
      invariant i <= |ranges| && part.Valid() && part.totalSize == side.total
      invariant part.MissingBytes() == Missing(side.gaps, side.total) + Missing(ranges[..i], side.total)
    {
      part.Punch(ranges[i].start, ranges[i].end);
      MissingAppend(ranges[..i], ranges[i], side.total);
      assert ranges[..i + 1] == ranges[..i] + [ranges[i]];
      i := i + 1;
    }
    assert ranges[..|ranges|] == ranges;
    part.Save();
    part.TotalIsMissing();
    remaining := part.RemainingBytes();
    gaps := part.sidecar;
  }

  // ----- every row -----

  /** The stored state after one row, its list and its data file changed. */
  function Updated(s: Store, key: Key, row: Row, side: Sidecar, file: bytes): Store {
    s.(rows := s.rows[key := row], sidecars := s.sidecars[key := side], disk := s.disk[key := file])
  }

  lemma {:induction false} UpdatedOk(s: Store, written: map<Key, seq<PartFiles.Op>>, key: Key, row: Row, side: Sidecar, file: bytes,
                  ops: seq<PartFiles.Op>)
    requires StoreOk(s, written) && RowOk(row, side, Some(file), ops)
    ensures StoreOk(Updated(s, key, row, side, file), written[key := ops])
  {
  }

  /** Every row has its stored gap list. */
  lemma {:induction false} Stored(s: Store, written: map<Key, seq<PartFiles.Op>>, key: Key)
    requires StoreOk(s, written) && key in s.rows
    ensures key in s.sidecars && key in written
    ensures RowOk(s.rows[key], s.sidecars[key], FileOf(s.disk, key), written[key])
  {
  }

  // ----- the queue -----

  class DownloadQueue {
    const md4: Ed2k.Md4
    const sparse: bool
    var store: Store
    ghost var written: map<Key, seq<PartFiles.Op>>

    ghost predicate Valid()
      reads this
    {
      StoreOk(store, written)
    }

    /** An empty queue over whatever files are there. */
    constructor (md4: Ed2k.Md4, sparse: bool, sidecars: map<Key, Sidecar>, disk: map<Key, bytes>,
                 incoming: map<string, bytes>)
      ensures Valid() && store == Store(map[], sidecars, disk, incoming)
      ensures this.md4 == md4 && this.sparse == sparse
    {
      this.md4, this.sparse := md4, sparse;
      store := Store(map[], sidecars, disk, incoming);
      written := map[];
    }

    /** The data file `open_new` leaves. */
    function Created(key: Key, size: nat): (file: bytes)
      reads this
      ensures key in store.disk && |store.disk[key]| == size ==> file == store.disk[key]
      ensures (key in store.disk ==> |store.disk[key]| != size) && sparse ==> file == []
      ensures (key in store.disk ==> |store.disk[key]| != size) && !sparse ==> |file| == size && forall i :: 0 <= i < size ==> file[i] == 0
    {
      if key in store.disk && |store.disk[key]| == size then store.disk[key]
      else if sparse then []
      else seq(size, i => 0)
    }

    /** Free bytes `open_new` asks for. */
    function Needed(key: Key, size: nat): (free: nat)
      reads this
      ensures free <= size && (sparse ==> free <= 1_048_576)
      ensures key in store.disk && |store.disk[key]| == size ==> free == 0
      ensures (key in store.disk ==> |store.disk[key]| != size) ==> free == size || (sparse && free == 1_048_576)
    {
      if key in store.disk && |store.disk[key]| == size then 0
      else if sparse then Min(0x10_0000, size)
      else size
    }

    method Add(key: Key, name: string, size: int, free: nat) returns (r: Result<Row, QueueError>)
      requires Valid()
      modifies this
      ensures Valid()
      ensures key in old(store.rows) ==> r == Success(old(store.rows[key]))
      ensures key !in old(store.rows) ==>
                r == if size <= 0 then Failure(BadSize)
                     else if free < old(Needed(key, size)) then Failure(NoSpace)
                     else Success(Row(name, size, Queued, 0))
      ensures key in old(store.rows) || r.Failure? ==> store == old(store) && written == old(written)
      ensures key !in old(store.rows) && r.Success? ==>
                && store == old(store).(rows := old(store).rows[key := r.value],
                                        sidecars := old(store).sidecars[key := Sidecar(size, [Gap(0, size)])],
                                        disk := old(store).disk[key := old(Created(key, size))])
                && written == old(written)[key := []]
    {
      if key in store.rows {
        return Success(store.rows[key]);
      }
      if size <= 0 {
        return Failure(BadSize);
      }
      if free < Needed(key, size) {
        return Failure(NoSpace);
      }
      var file := Created(key, size);
      var part := new PartFiles.PartFile(size, file);
      var row := Row(name, size, Queued, 0);
      store := store.(rows := store.rows[key := row],
                      sidecars := store.sidecars[key := Sidecar(size, part.sidecar)],
                      disk := store.disk[key := part.data]);
      written := written[key := []];
      FreshRowOk(name, size, file);
      r := Success(row);
    }

    method SetStatus(key: Key, status: Status) returns (r: Result<Row, QueueError>)
      requires Valid() && status != Complete
      modifies this
      ensures Valid() && written == old(written)
      ensures r == if key in old(store.rows) then Success(old(store.rows[key]).(status := status))
                   else Failure(NotFound)
      ensures store == if r.Success? then old(store).(rows := old(store).rows[key := r.value]) else old(store)
    {
      if key !in store.rows {
        return Failure(NotFound);
      }
      var row := store.rows[key].(status := status);
      store := store.(rows := store.rows[key := row]);
      r := Success(row);
    }

    method Start(key: Key) returns (r: Result<Row, QueueError>)
      requires Valid()
      modifies this
      ensures Valid() && written == old(written)
      ensures r == if key in old(store.rows) then Success(old(store.rows[key]).(status := Downloading))
                   else Failure(NotFound)
      ensures store == if r.Success? then old(store).(rows := old(store).rows[key := r.value]) else old(store)
    {
      r := SetStatus(key, Downloading);
    }

    method Pause(key: Key) returns (r: Result<Row, QueueError>)
      requires Valid()
      modifies this
      ensures Valid() && written == old(written)
      ensures r == if key in old(store.rows) then Success(old(store.rows[key]).(status := Paused))
                   else Failure(NotFound)
      ensures store == if r.Success? then old(store).(rows := old(store).rows[key := r.value]) else old(store)
    {
      r := SetStatus(key, Paused);
    }

    /** Only a paused download resumes. */
    method Resume(key: Key) returns (r: Result<Row, QueueError>)
      requires Valid()
      modifies this
      ensures Valid() && written == old(written)
      ensures r == if key !in old(store.rows) then Failure(NotFound)
                   else if old(store.rows[key]).status != Paused then Failure(OnlyPaused)
                   else Success(old(store.rows[key]).(status := Downloading))
      ensures store == if r.Success? then old(store).(rows := old(store).rows[key := r.value]) else old(store)
    {
      if key !in store.rows {
        return Failure(NotFound);
      }
      if store.rows[key].status != Paused {
        return Failure(OnlyPaused);
      }
      r := SetStatus(key, Downloading);
    }

    /** Forgets the row, and both files unless they are kept; the number of files removed. */
    method Cancel(key: Key, keepFiles: bool) returns (r: Result<nat, QueueError>)
      requires Valid()
      modifies this
      ensures Valid() && written == old(written)
      ensures r == if key !in old(store.rows) then Failure(NotFound)
                   else if keepFiles then Success(0)
                   else if key in old(store.disk) then Success(2) else Success(1)
      ensures store == if r.Failure? then old(store)
                       else if keepFiles then old(store).(rows := old(store).rows - {key})
                       else old(store).(rows := old(store).rows - {key},
                                        disk := old(store).disk - {key},
                                        sidecars := old(store).sidecars - {key})
    {
      if key !in store.rows {
        return Failure(NotFound);
      }
      var removed := 0;
      if !keepFiles {
        if key in store.disk {
          removed := removed + 1;
        }
        if key in store.sidecars {
          removed := removed + 1;
        }
        store := store.(disk := store.disk - {key}, sidecars := store.sidecars - {key},
                        rows := store.rows - {key});
      } else {
        store := store.(rows := store.rows - {key});
      }
      r := Success(removed);
    }

    /** A received block: the bytes it covers are no longer missing, and the row
        is complete exactly when nothing is. */
    method RecordBlock(key: Key, start: int, block: bytes) returns (r: Result<Progress, QueueError>)
      requires Valid()
      modifies this
      ensures Valid()
      ensures r.Failure? ==> store == old(store) && written == old(written)
      ensures r.Failure? ==>
                r.error == if key !in old(store.rows) then NotFound
                           else if key !in old(store.disk) then NoDataFile
                           else OutsideFile
      ensures r.Success? <==> key in old(store.rows) && key in old(store.disk)
                              && 0 <= start && start + |block| <= old(store.rows[key]).size
      ensures r.Success? ==>
                && key in old(store.sidecars) && key in old(written)
                && key in store.rows && key in store.sidecars
                && var row, side := old(store.rows[key]), store.sidecars[key];
                && r.value == Progress(|Missing(side.gaps, row.size)|, side.gaps == [])
                && Leaves(row, Missing(old(store.sidecars[key]).gaps, row.size) - Bytes(start, start + |block|),
                          if r.value.complete then Complete else Downloading, store.rows[key], side)
                && store == Updated(old(store), key, store.rows[key], side,
                                    PartFiles.Overwrite(old(store.disk[key]), start, block))
                && written == old(written)[key := old(written[key]) + [PartFiles.Write(start, block), PartFiles.Save]]
    {
      if key !in store.rows {
        return Failure(NotFound);
      }
      Stored(store, written, key);
      if key !in store.disk {
        return Failure(NoDataFile);
      }
      ghost var ops := written[key] + [PartFiles.Write(start, block), PartFiles.Save];
      var p, row, side, file :=
        WriteRow(store.rows[key], store.sidecars[key], store.disk[key], start, block, written[key]);
      if p.Failure? {
        return p;
      }
      UpdatedOk(store, written, key, row, side, file, ops);
      store, written := Updated(store, key, row, side, file), written[key := ops];
      r := p;
    }

    /** Corrupt ranges become missing again and the row goes back to downloading. */
    method PunchGaps(key: Key, ranges: seq<Gap>) returns (r: Result<(), QueueError>)
      requires Valid()
      modifies this
      ensures Valid()
      ensures r.Failure? ==> store == old(store) && written == old(written)
      ensures r == if key !in old(store.rows) then Failure(NotFound)
                   else if key !in old(store.disk) then Failure(NoDataFile)
                   else Success(())
      ensures r.Success? ==>
                && key in old(store.sidecars) && key in old(written)
                && key in store.rows && key in store.sidecars
                && var row := old(store.rows[key]);
                && Leaves(row, Missing(old(store.sidecars[key]).gaps, row.size) + Missing(ranges, row.size), Downloading,
                          store.rows[key], store.sidecars[key])
                && store == Updated(old(store), key, store.rows[key], store.sidecars[key], old(store.disk[key]))
                && written == old(written)[key := old(written[key]) + (Punches(ranges) + [PartFiles.Save])]
    {
      if key !in store.rows {
        return Failure(NotFound);
      }
      Stored(store, written, key);
      if key !in store.disk {
        return Failure(NoDataFile);
      }
      ghost var ops := written[key] + (Punches(ranges) + [PartFiles.Save]);
      var file := store.disk[key];
      var row, side := PunchRow(store.rows[key], store.sidecars[key], file, ranges, written[key]);
      UpdatedOk(store, written, key, row, side, file, ops);
      store, written := Updated(store, key, row, side, file), written[key := ops];
      r := Success(());
    }

    /** Moves a complete file to `incoming`. What moves is always whole: as long as
        the row says and every byte the last one written; if verified, its eD2k
        hash is the row's key. */
    method Finalize(key: Key, verify: bool, free: nat) returns (r: Result<(), QueueError>)
      requires Valid()
      modifies this
      ensures Valid() && written == old(written)
      ensures r == if key !in old(store.rows) then Failure(NotFound)
                   else if old(store.rows[key]).status != Complete then Failure(NotComplete)
                   else if key !in old(store.disk) then Failure(NoDataFile)
                   else if free <= old(store.rows[key]).size then Failure(NoSpace)
                   else if verify && !IsEd2kHash(md4, old(store.disk[key]), key) then Failure(HashMismatch)
                   else Success(())
      ensures r.Failure? ==> store == old(store)
      ensures r.Success? ==>
                var row := old(store.rows[key]);
                && store == old(store).(disk := old(store).disk - {key},
                                        incoming := old(store).incoming[row.name := old(store.disk[key])])
                && IsWhole(old(store.disk[key]), row.size, old(written[key]))
                && row.downloaded == row.size
    {
      if key !in store.rows {
        return Failure(NotFound);
      }
      var row := store.rows[key];
      if row.status != Complete {
        return Failure(NotComplete);
      }
      if key !in store.disk {
        return Failure(NoDataFile);
      }
      var file := store.disk[key];
      NoGapsIsWhole(row, store.sidecars[key], file, written[key]);
      assert Missing([], row.size) == {};
      if free <= |file| {
        return Failure(NoSpace);
      }
      if verify {
        if store.sidecars[key].gaps != [] {
          assert false;
        }
        var actual := FileHash(md4, file);
        if actual != key {
          return Failure(HashMismatch);
        }
      }
      store := store.(disk := store.disk - {key}, incoming := store.incoming[row.name := file]);
      store := store.(rows := store.rows[key := row.(status := Complete)]);
      r := Success(());
    }
  }

  // ----- every run -----

  datatype Command =
    | Add(key: Key, name: string, size: int, free: nat)
    | Start(key: Key)
    | Pause(key: Key)
    | Resume(key: Key)
    | Cancel(key: Key, keepFiles: bool)
    | RecordBlock(key: Key, start: int, block: bytes)
    | PunchGaps(key: Key, ranges: seq<Gap>)
    | Finalize(key: Key, verify: bool, free: nat)

  /** A file moved to `incoming`, with the history of its row. */
  datatype Delivery = Delivery(key: Key, name: string, size: nat, verified: bool, file: bytes, written: seq<PartFiles.Op>)

  ghost predicate Sound(md4: Ed2k.Md4, d: Delivery) {
    IsWhole(d.file, d.size, d.written) && (d.verified ==> IsEd2kHash(md4, d.file, d.key))
  }

  /** The finished files after some deliveries. */
  function Arrived(incoming: map<string, bytes>, delivered: seq<Delivery>): map<string, bytes> {
    if delivered == [] then incoming
    else
      var last := |delivered| - 1;
      Arrived(incoming, delivered[..last])[delivered[last].name := delivered[last].file]
  }

  lemma {:induction false} ArrivedMore(incoming: map<string, bytes>, delivered: seq<Delivery>, more: seq<Delivery>)
    requires |more| <= 1
    ensures Arrived(incoming, delivered + more) == Arrived(Arrived(incoming, delivered), more)
  {
    if more == [] {
      assert delivered + more == delivered;
    } else {
      assert (delivered + more)[..|delivered|] == delivered;
    }
  }

  method Execute(q: DownloadQueue, c: Command) returns (ghost delivered: seq<Delivery>)
    requires q.Valid()
    modifies q
    ensures q.Valid()
    ensures forall d <- delivered :: Sound(q.md4, d)
    ensures c.Finalize? || delivered == []
    ensures q.store.incoming == Arrived(old(q.store).incoming, delivered)
    ensures |delivered| <= 1
  {
    delivered := [];
    match c {
      case Add(key, name, size, free) =>
        var _ := q.Add(key, name, size, free);
      case Start(key) =>
        var _ := q.Start(key);
      case Pause(key) =>
        var _ := q.Pause(key);
      case Resume(key) =>
        var _ := q.Resume(key);
      case Cancel(key, keepFiles) =>
        var _ := q.Cancel(key, keepFiles);
      case RecordBlock(key, start, block) =>
        var _ := q.RecordBlock(key, start, block);
      case PunchGaps(key, ranges) =>
        var _ := q.PunchGaps(key, ranges);
      case Finalize(key, verify, free) =>
        ghost var s, written := q.store, q.written;
        var r := q.Finalize(key, verify, free);
        if r.Success? {
          delivered := [Delivery(key, s.rows[key].name, s.rows[key].size, verify, s.disk[key], written[key])];
        }
    }
  }

  /** After any run every row agrees with its file and gap list. Every file the run
      delivered was whole, and had the hash of its key if verified; and the finished
      files are those from before with the delivered ones put over them. */
  method Run(q: DownloadQueue, commands: seq<Command>) returns (ghost delivered: seq<Delivery>)
    requires q.Valid()
    modifies q
    ensures q.Valid()
    ensures forall d <- delivered :: Sound(q.md4, d)
    ensures q.store.incoming == Arrived(old(q.store).incoming, delivered)
  {
    delivered := [];
    for i := 0 to |commands|
      invariant q.Valid()
      invariant forall d <- delivered :: Sound(q.md4, d)
      invariant q.store.incoming == Arrived(old(q.store).incoming, delivered)
    {
      ghost var more := Execute(q, commands[i]);
      ArrivedMore(old(q.store).incoming, delivered, more);
      delivered := delivered + more;
    }
  }
}
