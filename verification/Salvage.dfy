/** Corrupt-part salvage (`_aich_narrow_corrupt`): narrowing a corrupt part to
    its corrupt blocks never leaves a corrupt byte out. */
module Salvage {
  import opened Base
  import opened AichTree
  import opened AichPath
  import opened AichRecovery
  import opened AichVerify
  import opened AichTheorems
  import opened AichSound

  ghost predicate Covered(pos: nat, ranges: seq<Span>) {
    exists r :: r in ranges && r.lo <= pos < r.hi
  }

  /** `seek` and `read`: short at the end of the file. */
  function ReadPart(disk: bytes, at: nat, size: nat): (part: bytes)
    ensures |part| <= size
    ensures |part| == Max(0, Min(size, |disk| - at))
    ensures part != [] ==> part == disk[at..at + |part|]
  {
    Slice(disk, at, at + size)
  }

  function BlockRange(at: nat, size: nat, j: nat): Span
    requires j * BLOCKSIZE < size
  {
    Span(at + j * BLOCKSIZE, Min(at + j * BLOCKSIZE + BLOCKSIZE, at + size))
  }

  /** Ranges of the blocks, from block j on, whose two hashes differ. */
  function Differences(ours: seq<bytes>, verified: seq<bytes>, at: nat, size: nat, j: nat): seq<Span>
    requires |ours| * BLOCKSIZE < size + BLOCKSIZE
    decreases |ours| - j
  {
    if j >= |ours| || j >= |verified| then []
    else
      (if ours[j] != verified[j] then [BlockRange(at, size, j)] else [])
      + Differences(ours, verified, at, size, j + 1)
  }

  /** Hashes of the blocks on disk (`aich_hash_data(part_data).block_hashes`). */
  function DiskLeaves(h: Hash, disk: bytes, at: nat, size: nat): seq<bytes> {
    var part := ReadPart(disk, at, size);
    Leaves(h, part, 0, ShapeOf(|part|, true))
  }

  lemma {:induction false} DiskLeafCount(h: Hash, disk: bytes, at: nat, size: nat)
    requires size <= PARTSIZE
    ensures |DiskLeaves(h, disk, at, size)| == CeilDiv(|ReadPart(disk, at, size)|, BLOCKSIZE)
    ensures |DiskLeaves(h, disk, at, size)| * BLOCKSIZE < size + BLOCKSIZE
  {
    var part := ReadPart(disk, at, size);
    SegmentBlocks(h, part, 0, |part|, true);
  }

  /** One corrupt part, appending to the ranges found so far. `blob` is what the
      peer answered, if anything. */
  function NarrowPart(h: Hash, stored: Option<bytes>, disk: bytes, size: nat, at: nat, blob: Option<bytes>,
                      ranges: seq<Span>): Result<seq<Span>, Error>
    requires StartsPart(size, at)
  {
    if stored.None? || blob.None? || blob.value == [] then Success(ranges + [WholePart(size, at)])
    else NarrowWith(h, disk, size, at, VerifySpec(h, blob.value, at / PARTSIZE, size, stored.value), ranges)
  }

  function WholePart(size: nat, at: nat): Span
    requires StartsPart(size, at)
  {
    Span(at, at + PartSize(size, at))
  }

  /** With what the verification of the blob returned. An AichError means the whole
      part; other errors leave the routine. */
  function NarrowWith(h: Hash, disk: bytes, size: nat, at: nat, verified: Result<seq<bytes>, Error>,
                      ranges: seq<Span>): Result<seq<Span>, Error>
    requires StartsPart(size, at)
  {
    if verified.Failure? then
      if verified.error == AichError then Success(ranges + [WholePart(size, at)]) else Failure(verified.error)
    else
      DiskLeafCount(h, disk, at, PartSize(size, at));
      var found := ranges + Differences(DiskLeaves(h, disk, at, PartSize(size, at)), verified.value, at, PartSize(size, at), 0);
      Success(if found == [] then ranges + [WholePart(size, at)] else found)
  }

  function NarrowAll(h: Hash, stored: Option<bytes>, disk: bytes, size: nat, parts: seq<Span>,
                     blobs: seq<Option<bytes>>, ranges: seq<Span>): Result<seq<Span>, Error>
    requires |blobs| == |parts| && forall p :: p in parts ==> StartsPart(size, p.lo)
    decreases |parts|
  {
    if parts == [] then Success(ranges)
    else
      var next :- NarrowPart(h, stored, disk, size, parts[0].lo, blobs[0], ranges);
      NarrowAll(h, stored, disk, size, parts[1..], blobs[1..], next)
  }

  /** The corrupt parts a run of the part verification can list. */
  ghost predicate CorruptParts(parts: seq<Span>, disk: bytes, size: nat) {
    forall p :: p in parts ==>
      StartsPart(size, p.lo) && p.hi == p.lo + |ReadPart(disk, p.lo, PartSize(size, p.lo))|
  }

  method AppendDifferences(ours: seq<bytes>, verified: seq<bytes>, at: nat, size: nat, before: seq<Span>)
    returns (ranges: seq<Span>)
    requires |ours| * BLOCKSIZE < size + BLOCKSIZE
    ensures ranges == before + Differences(ours, verified, at, size, 0)
  {
    ranges := before;
    var j := 0;
    while j < |ours| && j < |verified|
      invariant before + Differences(ours, verified, at, size, 0) == ranges + Differences(ours, verified, at, size, j)
    {
      if ours[j] != verified[j] {
        ranges := ranges + [BlockRange(at, size, j)];
      }
      j := j + 1;
    }
  }

  /** One turn of the loop over the corrupt parts. */
  method NarrowOne(h: Hash, stored: Option<bytes>, disk: bytes, size: nat, at: nat, blob: Option<bytes>,
                   before: seq<Span>) returns (r: Result<seq<Span>, Error>)
    requires StartsPart(size, at)
    ensures r == NarrowPart(h, stored, disk, size, at, blob, before)
  {
    var partIndex := at / PARTSIZE;
    if stored.Some? && blob.Some? && blob.value != [] {
      var verified := VerifiedPartBlocks(h, blob.value, partIndex, size, stored.value);
      r := NarrowBlocks(h, disk, size, at, verified, before);
    } else {
      r := Success(before + [WholePart(size, at)]);
    }
  }

  method NarrowBlocks(h: Hash, disk: bytes, size: nat, at: nat, verified: Result<seq<bytes>, Error>, before: seq<Span>)
    returns (r: Result<seq<Span>, Error>)
    requires StartsPart(size, at)
    ensures r == NarrowWith(h, disk, size, at, verified, before)
  {
    var partSize := Min(PARTSIZE, size - at);
    var ranges, narrowed := before, false;
    if verified.Success? {
      var _, ours := HashData(h, ReadPart(disk, at, partSize));
      DiskLeafCount(h, disk, at, partSize);
      ranges := AppendDifferences(ours, verified.value, at, partSize, before);
      narrowed := ranges != [];
    } else if verified.error != AichError {
      return Failure(verified.error);
    }
    if !narrowed {
      ranges := ranges + [Span(at, at + partSize)];
    }
    return Success(ranges);
  }

  /** `_aich_narrow_corrupt`. `queued` says whether the download is still listed. */
  method NarrowCorrupt(h: Hash, queued: bool, stored: Option<bytes>, disk: bytes, size: nat,
                       parts: seq<Span>, blobs: seq<Option<bytes>>)
    returns (r: Result<seq<Span>, Error>)
    requires |blobs| == |parts| && CorruptParts(parts, disk, size)
    ensures r == if queued then NarrowAll(h, stored, disk, size, parts, blobs, []) else Success(parts)
  {
    if !queued {
      return Success(parts);
    }
    var ranges: seq<Span> := [];
    var i := 0;
    while i < |parts|
      invariant i <= |parts|
      invariant NarrowAll(h, stored, disk, size, parts, blobs, [])
                == NarrowAll(h, stored, disk, size, parts[i..], blobs[i..], ranges)
    {
      assert parts[i] in parts;
      ranges :- NarrowOne(h, stored, disk, size, parts[i].lo, blobs[i], ranges);
      i := i + 1;
    }
    return Success(ranges);
  }

  // ----- when narrowing returns -----

  predicate Readable(stored: Option<bytes>, blob: Option<bytes>) {
    stored.None? || blob.None? || blob.value == [] || ParseSpec(blob.value).Success?
  }

  lemma {:induction false} NarrowPartReturns(h: Hash, stored: Option<bytes>, disk: bytes, size: nat, at: nat, blob: Option<bytes>,
                          ranges: seq<Span>)
    requires StartsPart(size, at)
    ensures NarrowPart(h, stored, disk, size, at, blob, ranges).Success? <==> Readable(stored, blob)
  {
    assert at / PARTSIZE * PARTSIZE == at;
    if stored.Some? && blob.Some? {
      ConsumerErrors(h, blob.value, at / PARTSIZE, size, stored.value);
    }
  }

  /** Narrowing returns exactly when no blob it looks at is cut short; a rejected
      blob is no obstacle. */
  lemma {:induction false} NarrowingReturns(h: Hash, stored: Option<bytes>, disk: bytes, size: nat, parts: seq<Span>,
                                            blobs: seq<Option<bytes>>, ranges: seq<Span>)
    requires |blobs| == |parts| && forall p :: p in parts ==> StartsPart(size, p.lo)
    ensures NarrowAll(h, stored, disk, size, parts, blobs, ranges).Success?
            <==> forall blob :: blob in blobs ==> Readable(stored, blob)
    decreases |parts|
  {
    if parts != [] {
      NarrowPartReturns(h, stored, disk, size, parts[0].lo, blobs[0], ranges);
      var next := NarrowPart(h, stored, disk, size, parts[0].lo, blobs[0], ranges);
      assert blobs == [blobs[0]] + blobs[1..];
      if next.Success? {
        NarrowingReturns(h, stored, disk, size, parts[1..], blobs[1..], next.value);
      }
    }
  }

  // ----- no corrupt byte is left out -----

  lemma {:induction false} DifferencesCover(ours: seq<bytes>, verified: seq<bytes>, at: nat, size: nat, from: nat, j: nat)
    requires |ours| * BLOCKSIZE < size + BLOCKSIZE
    requires from <= j < |ours| && j < |verified| && ours[j] != verified[j]
    ensures BlockRange(at, size, j) in Differences(ours, verified, at, size, from)
    decreases j - from
  {
    if from < j {
      DifferencesCover(ours, verified, at, size, from + 1, j);
    }
  }

  /** Two strings with one hash, when a corrupt byte goes unnoticed: either the
      blob was accepted by a collision, or the block on disk collides with the
      true one. */
  function ByteCollision(h: Hash, data: bytes, disk: bytes, at: nat, entries: Entries, pos: nat): Collision
    requires StartsPart(|data|, at) && at <= pos
    requires VerifyEntries(h, entries, at, |data|, Master(h, data)).Success?
  {
    var size, j := PartSize(|data|, at), (pos - at) / BLOCKSIZE;
    var part := ReadPart(disk, at, size);
    OrElse(BlobCollision(h, data, at, entries),
           Some((PartBlockBytes(part, 0, |part|, j), PartBlockBytes(data, at, size, j))))
  }

  /** The entries were accepted, yet two different strings that were hashed
      collide: one on our side, one behind the trusted master. */
  ghost predicate CollidedOn(h: Hash, data: bytes, disk: bytes, at: nat, entries: Entries, pos: nat)
    requires StartsPart(|data|, at) && at <= pos
  {
    && VerifyEntries(h, entries, at, |data|, Master(h, data)).Success?
    && Collides(h, ByteCollision(h, data, disk, at, entries, pos),
                ConsumerStrings(h, entries, at, |data|, Master(h, data)) + DiskStrings(h, data, disk, at),
                StreamStrings(h, data, 0, ShapeOf(|data|, true)))
  }

  /** What `aich_hash_data(part_data)` hashes. */
  ghost function DiskStrings(h: Hash, data: bytes, disk: bytes, at: nat): set<bytes>
    requires StartsPart(|data|, at)
  {
    var part := ReadPart(disk, at, PartSize(|data|, at));
    StreamStrings(h, part, 0, ShapeOf(|part|, true))
  }

  ghost predicate Collided(h: Hash, data: bytes, disk: bytes, at: nat, blob: Option<bytes>, pos: nat)
    requires StartsPart(|data|, at) && at <= pos
  {
    && blob.Some?
    && ParseSpec(blob.value).Success?
    && CollidedOn(h, data, disk, at, ParseSpec(blob.value).value, pos)
  }

  /** Byte pos of the part at `at` is not as in the file: it has another value, or it
      is missing at the end of a block that was cut short. */
  ghost predicate Damaged(data: bytes, disk: bytes, at: nat, pos: nat)
    requires at <= pos < |data|
  {
    if pos < |disk| then disk[pos] != data[pos] else at + (pos - at) / BLOCKSIZE * BLOCKSIZE < |disk|
  }

  lemma {:induction false} DifferentBlocks(data: bytes, disk: bytes, at: nat, size: nat, pos: nat, j: nat)
    requires at + size <= |data| && at <= pos < at + size && Damaged(data, disk, at, pos)
    requires j == (pos - at) / BLOCKSIZE
    ensures var part := ReadPart(disk, at, size);
            && j < CeilDiv(|part|, BLOCKSIZE) && j < CeilDiv(size, BLOCKSIZE)
            && PartBlockBytes(part, 0, |part|, j) != PartBlockBytes(data, at, size, j)
            && BlockRange(at, size, j).lo <= pos < BlockRange(at, size, j).hi
  {
    var part, k := ReadPart(disk, at, size), pos - at - j * BLOCKSIZE;
    assert PartBlockBytes(data, at, size, j)[k] == data[pos];
    if pos < |disk| {
      assert part[pos - at] == disk[pos];
      assert PartBlockBytes(part, 0, |part|, j)[k] == part[pos - at];
    }
  }

  lemma {:induction false} DiskBlock(h: Hash, disk: bytes, at: nat, size: nat, j: nat)
    requires size <= PARTSIZE && j < CeilDiv(|ReadPart(disk, at, size)|, BLOCKSIZE)
    ensures var part := ReadPart(disk, at, size);
            var block := PartBlockBytes(part, 0, |part|, j);
            && j < |DiskLeaves(h, disk, at, size)|
            && DiskLeaves(h, disk, at, size)[j] == Sha1(h, block)
            && block in StreamStrings(h, part, 0, ShapeOf(|part|, true))
  {
    var part := ReadPart(disk, at, size);
    SegmentBlocks(h, part, 0, |part|, true);
    BlockHashed(h, part, 0, |part|, true, j);
  }

  lemma {:induction false} TrueBlock(h: Hash, data: bytes, at: nat, j: nat)
    requires StartsPart(|data|, at) && j < CeilDiv(PartSize(|data|, at), BLOCKSIZE)
    ensures var block := PartBlockBytes(data, at, PartSize(|data|, at), j);
            && j < |PartLeaves(h, data, at)|
            && PartLeaves(h, data, at)[j] == Sha1(h, block)
            && block in StreamStrings(h, data, 0, ShapeOf(|data|, true))
  {
    var isLeft := IsLeft(PartIdent(ShapeOf(|data|, true), at, 1));
    PartLeavesAreBlocks(h, data, at);
    BlockHashed(h, data, at, PartSize(|data|, at), isLeft, j);
    PartNodeStrings(h, data, at);
  }

  lemma {:induction false} BlockCollides(h: Hash, data: bytes, disk: bytes, at: nat, entries: Entries, pos: nat, j: nat)
    requires StartsPart(|data|, at)
    requires at <= pos < at + PartSize(|data|, at) && Damaged(data, disk, at, pos)
    requires VerifyEntries(h, entries, at, |data|, Master(h, data)).Success?
    requires BlobCollision(h, data, at, entries).None? && j == (pos - at) / BLOCKSIZE
    ensures var ours := DiskLeaves(h, disk, at, PartSize(|data|, at));
            && j < |ours| && j < |PartLeaves(h, data, at)|
            && (ours[j] == PartLeaves(h, data, at)[j] ==> CollidedOn(h, data, disk, at, entries, pos))
  {
    DifferentBlocks(data, disk, at, PartSize(|data|, at), pos, j);
    DiskBlock(h, disk, at, PartSize(|data|, at), j);
    TrueBlock(h, data, at, j);
  }

  /** A block on disk that differs from the true one has another hash than the
      verified one, or a collision explains it. */
  lemma {:induction false} CorruptBlockSeen(h: Hash, data: bytes, disk: bytes, partIndex: nat, at: nat, recovery: bytes, pos: nat)
    requires at == partIndex * PARTSIZE && StartsPart(|data|, at)
    requires VerifySpec(h, recovery, partIndex, |data|, Master(h, data)).Success?
    requires at <= pos < at + PartSize(|data|, at) && Damaged(data, disk, at, pos)
    ensures var ours, verified := DiskLeaves(h, disk, at, PartSize(|data|, at)),
                                  VerifySpec(h, recovery, partIndex, |data|, Master(h, data)).value;
            var j := (pos - at) / BLOCKSIZE;
            || (j < |ours| && j < |verified| && ours[j] != verified[j])
            || Collided(h, data, disk, at, Some(recovery), pos)
  {
    MerkleSoundness(h, data, recovery, partIndex, at, VerifySpec(h, recovery, partIndex, |data|, Master(h, data)).value);
    var entries := ParseSpec(recovery).value;
    if BlobCollision(h, data, at, entries).None? {
      BlockCollides(h, data, disk, at, entries, pos, (pos - at) / BLOCKSIZE);
    } else {
      assert CollidedOn(h, data, disk, at, entries, pos);
    }
  }

  lemma {:induction false} NarrowPartSafe(h: Hash, data: bytes, stored: Option<bytes>, disk: bytes, at: nat, blob: Option<bytes>,
                       ranges: seq<Span>, pos: nat)
    requires StartsPart(|data|, at) && (stored.Some? ==> stored.value == Master(h, data))
    requires NarrowPart(h, stored, disk, |data|, at, blob, ranges).Success?
    requires at <= pos < at + PartSize(|data|, at) && Damaged(data, disk, at, pos)
    ensures || Covered(pos, NarrowPart(h, stored, disk, |data|, at, blob, ranges).value)
            || Collided(h, data, disk, at, blob, pos)
  {
    var size, out := PartSize(|data|, at), NarrowPart(h, stored, disk, |data|, at, blob, ranges).value;
    var partIndex := at / PARTSIZE;
    assert partIndex * PARTSIZE == at;
    if stored.Some? && blob.Some? && blob.value != [] && VerifySpec(h, blob.value, partIndex, |data|, stored.value).Success? {
      CorruptBlockSeen(h, data, disk, partIndex, at, blob.value, pos);
      var ours, verified := DiskLeaves(h, disk, at, size), VerifySpec(h, blob.value, partIndex, |data|, stored.value).value;
      var j := (pos - at) / BLOCKSIZE;
      if j < |ours| && j < |verified| && ours[j] != verified[j] {
        DiskLeafCount(h, disk, at, size);
        DifferencesCover(ours, verified, at, size, 0, j);
        DifferentBlocks(data, disk, at, size, pos, j);
        assert BlockRange(at, size, j) in out;
      }
    } else {
      assert Span(at, at + size) in out;
    }
  }

  lemma {:induction false} NarrowPartKeeps(h: Hash, stored: Option<bytes>, disk: bytes, size: nat, at: nat, blob: Option<bytes>, ranges: seq<Span>)
    requires StartsPart(size, at) && NarrowPart(h, stored, disk, size, at, blob, ranges).Success?
    ensures ranges <= NarrowPart(h, stored, disk, size, at, blob, ranges).value
  {
  }

  lemma {:induction false} NarrowAllKeeps(h: Hash, stored: Option<bytes>, disk: bytes, size: nat, parts: seq<Span>,
                                          blobs: seq<Option<bytes>>, ranges: seq<Span>)
    requires |blobs| == |parts| && forall p :: p in parts ==> StartsPart(size, p.lo)
    requires NarrowAll(h, stored, disk, size, parts, blobs, ranges).Success?
    ensures ranges <= NarrowAll(h, stored, disk, size, parts, blobs, ranges).value
    decreases |parts|
  {
    if parts != [] {
      NarrowPartKeeps(h, stored, disk, size, parts[0].lo, blobs[0], ranges);
      var next := NarrowPart(h, stored, disk, size, parts[0].lo, blobs[0], ranges).value;
      NarrowAllKeeps(h, stored, disk, size, parts[1..], blobs[1..], next);
    }
  }

  lemma {:induction false} NarrowAllSafe(h: Hash, data: bytes, stored: Option<bytes>, disk: bytes, parts: seq<Span>,
                                         blobs: seq<Option<bytes>>, ranges: seq<Span>, i: nat, pos: nat)
    requires |blobs| == |parts| && forall p :: p in parts ==> StartsPart(|data|, p.lo)
    requires stored.Some? ==> stored.value == Master(h, data)
    requires NarrowAll(h, stored, disk, |data|, parts, blobs, ranges).Success?
    requires i < |parts| && parts[i].lo <= pos < parts[i].lo + PartSize(|data|, parts[i].lo)
    requires Damaged(data, disk, parts[i].lo, pos)
    ensures || Covered(pos, NarrowAll(h, stored, disk, |data|, parts, blobs, ranges).value)
            || Collided(h, data, disk, parts[i].lo, blobs[i], pos)
    decreases |parts|
  {
    var next := NarrowPart(h, stored, disk, |data|, parts[0].lo, blobs[0], ranges).value;
    if i == 0 {
      NarrowPartSafe(h, data, stored, disk, parts[0].lo, blobs[0], ranges, pos);
      NarrowAllKeeps(h, stored, disk, |data|, parts[1..], blobs[1..], next);
    } else {
      NarrowAllSafe(h, data, stored, disk, parts[1..], blobs[1..], next, i - 1, pos);
    }
  }

  /** Salvage loses no corruption. Whenever narrowing returns, every byte of a
      corrupt part that differs from the file behind the trusted master, or that is
      missing from a block cut short, lies in a returned range, or two different strings that were really hashed
      have one SHA-1 and are at hand. */
  lemma {:induction false} SalvageLosesNothing(h: Hash, data: bytes, queued: bool, stored: Option<bytes>, disk: bytes,
                            parts: seq<Span>, blobs: seq<Option<bytes>>, ranges: seq<Span>, i: nat, pos: nat)
    requires |blobs| == |parts| && CorruptParts(parts, disk, |data|)
    requires stored.Some? ==> stored.value == Master(h, data)
    requires Success(ranges) == if queued then NarrowAll(h, stored, disk, |data|, parts, blobs, []) else Success(parts)
    requires i < |parts| && parts[i].lo <= pos < parts[i].lo + PartSize(|data|, parts[i].lo)
    requires Damaged(data, disk, parts[i].lo, pos) && (queued || pos < |disk|)
    ensures Covered(pos, ranges) || Collided(h, data, disk, parts[i].lo, blobs[i], pos)
  {
    if queued {
      NarrowAllSafe(h, data, stored, disk, parts, blobs, [], i, pos);
    } else {
      assert parts[i] in ranges;
    }
  }

  // ----- no more than needed is returned -----

  /** The peer's blob was accepted against the trusted master. */
  predicate Accepted(h: Hash, stored: Option<bytes>, size: nat, at: nat, blob: Option<bytes>) {
    && stored.Some? && blob.Some? && blob.value != []
    && VerifySpec(h, blob.value, at / PARTSIZE, size, stored.value).Success?
  }

  /** The block of the part that byte pos lies in, as it is on disk. */
  function BlockOnDisk(disk: bytes, size: nat, at: nat, pos: nat): bytes
    requires StartsPart(size, at) && at <= pos
  {
    var part := ReadPart(disk, at, PartSize(size, at));
    PartBlockBytes(part, 0, |part|, (pos - at) / BLOCKSIZE)
  }

  /** Byte pos lies in a block that is, at least partly, on disk and whose hash is not
      the verified one. */
  predicate InBadBlock(h: Hash, stored: Option<bytes>, disk: bytes, size: nat, at: nat, blob: Option<bytes>, pos: nat)
    requires StartsPart(size, at) && Accepted(h, stored, size, at, blob) && at <= pos
  {
    var verified, j := VerifySpec(h, blob.value, at / PARTSIZE, size, stored.value).value, (pos - at) / BLOCKSIZE;
    && at + j * BLOCKSIZE < |disk| && j < |verified|
    && Sha1(h, BlockOnDisk(disk, size, at, pos)) != verified[j]
  }

  lemma {:induction false} DifferencesExact(ours: seq<bytes>, verified: seq<bytes>, at: nat, size: nat, from: nat, pos: nat, j: nat)
    requires |ours| * BLOCKSIZE < size + BLOCKSIZE
    requires at <= pos < at + size && j == (pos - at) / BLOCKSIZE
    ensures Covered(pos, Differences(ours, verified, at, size, from))
            <==> from <= j < |ours| && j < |verified| && ours[j] != verified[j]
    decreases |ours| - from
  {
    if from < |ours| && from < |verified| {
      DifferencesExact(ours, verified, at, size, from + 1, pos, j);
      var rest := Differences(ours, verified, at, size, from + 1);
      if ours[from] != verified[from] {
        var r := BlockRange(at, size, from);
        CoveredEither(pos, [r], rest);
        assert r.lo <= pos < r.hi <==> j == from;
        OneCovers(pos, r);
      } else {
        assert [] + rest == rest;
      }
    }
  }

  lemma {:induction false} OneCovers(pos: nat, r: Span)
    ensures Covered(pos, [r]) <==> r.lo <= pos < r.hi
  {
    assert r in [r];
  }

  lemma {:induction false} CoveredEither(pos: nat, a: seq<Span>, b: seq<Span>)
    ensures Covered(pos, a + b) <==> Covered(pos, a) || Covered(pos, b)
  {
    if Covered(pos, a) {
      var r :| r in a && r.lo <= pos < r.hi;
      assert r in a + b;
    }
    if Covered(pos, b) {
      var r :| r in b && r.lo <= pos < r.hi;
      assert r in a + b;
    }
  }

  lemma {:induction false} DifferencesInPart(ours: seq<bytes>, verified: seq<bytes>, at: nat, size: nat, from: nat, r: Span)
    requires |ours| * BLOCKSIZE < size + BLOCKSIZE && r in Differences(ours, verified, at, size, from)
    ensures at <= r.lo < r.hi <= at + size
    decreases |ours| - from
  {
    if r in Differences(ours, verified, at, size, from + 1) {
      DifferencesInPart(ours, verified, at, size, from + 1, r);
    }
  }

  /** The ranges of an accepted part cover the bytes of its bad blocks. */
  lemma {:induction false} DifferencesAreBad(h: Hash, stored: Option<bytes>, disk: bytes, size: nat, at: nat, blob: Option<bytes>,
                                             found: seq<Span>, pos: nat)
    requires StartsPart(size, at) && Accepted(h, stored, size, at, blob) && at <= pos < at + PartSize(size, at)
    requires |DiskLeaves(h, disk, at, PartSize(size, at))| * BLOCKSIZE < PartSize(size, at) + BLOCKSIZE
    requires found == Differences(DiskLeaves(h, disk, at, PartSize(size, at)),
                                  VerifySpec(h, blob.value, at / PARTSIZE, size, stored.value).value, at, PartSize(size, at), 0)
    ensures Covered(pos, found) <==> InBadBlock(h, stored, disk, size, at, blob, pos)
  {
    var ours, j := DiskLeaves(h, disk, at, PartSize(size, at)), (pos - at) / BLOCKSIZE;
    DiskLeafCount(h, disk, at, PartSize(size, at));
    OnDiskCount(disk, at, PartSize(size, at), pos);
    DifferencesExact(ours, VerifySpec(h, blob.value, at / PARTSIZE, size, stored.value).value, at, PartSize(size, at), 0, pos, j);
    if j < |ours| {
      DiskBlock(h, disk, at, PartSize(size, at), j);
    }
  }

  /** A block is on disk, at least partly, when it is among the hashed ones. */
  lemma {:induction false} OnDiskCount(disk: bytes, at: nat, size: nat, pos: nat)
    requires at <= pos < at + size
    ensures (pos - at) / BLOCKSIZE < CeilDiv(|ReadPart(disk, at, size)|, BLOCKSIZE)
            <==> at + (pos - at) / BLOCKSIZE * BLOCKSIZE < |disk|
  {
  }

  ghost predicate NoneBad(h: Hash, stored: Option<bytes>, disk: bytes, size: nat, at: nat, blob: Option<bytes>)
    requires StartsPart(size, at) && Accepted(h, stored, size, at, blob)
  {
    forall pos :: at <= pos < at + PartSize(size, at) ==> !InBadBlock(h, stored, disk, size, at, blob, pos)
  }

  lemma {:induction false} NoneBadFindsNothing(h: Hash, stored: Option<bytes>, disk: bytes, size: nat, at: nat, blob: Option<bytes>,
                                               found: seq<Span>)
    requires StartsPart(size, at) && Accepted(h, stored, size, at, blob)
    requires |DiskLeaves(h, disk, at, PartSize(size, at))| * BLOCKSIZE < PartSize(size, at) + BLOCKSIZE
    requires found == Differences(DiskLeaves(h, disk, at, PartSize(size, at)),
                                  VerifySpec(h, blob.value, at / PARTSIZE, size, stored.value).value, at, PartSize(size, at), 0)
    ensures found == [] <==> NoneBad(h, stored, disk, size, at, blob)
  {
    if found != [] {
      var r := found[0];
      DifferencesInPart(DiskLeaves(h, disk, at, PartSize(size, at)),
                        VerifySpec(h, blob.value, at / PARTSIZE, size, stored.value).value, at, PartSize(size, at), 0, r);
      assert Covered(r.lo, found);
      DifferencesAreBad(h, stored, disk, size, at, blob, found, r.lo);
    } else {
      forall pos | at <= pos < at + PartSize(size, at)
        ensures !InBadBlock(h, stored, disk, size, at, blob, pos)
      {
        DifferencesAreBad(h, stored, disk, size, at, blob, found, pos);
      }
    }
  }

  /** Why byte pos of a corrupt part is returned. */
  ghost predicate Suspect(h: Hash, stored: Option<bytes>, disk: bytes, size: nat, at: nat, blob: Option<bytes>, pos: nat)
    requires StartsPart(size, at)
  {
    && at <= pos < at + PartSize(size, at)
    && (Accepted(h, stored, size, at, blob) ==> InBadBlock(h, stored, disk, size, at, blob, pos))
  }

  /** Narrowing one part adds its suspect bytes and nothing else, unless there are none
      and nothing was found before: then it adds all of them. */
  lemma {:induction false} NarrowPartExact(h: Hash, stored: Option<bytes>, disk: bytes, size: nat, at: nat, blob: Option<bytes>,
                                           ranges: seq<Span>, pos: nat)
    requires StartsPart(size, at) && NarrowPart(h, stored, disk, size, at, blob, ranges).Success?
    ensures var out := NarrowPart(h, stored, disk, size, at, blob, ranges).value;
            && out != []
            && (Covered(pos, out)
                <==> || Covered(pos, ranges) || Suspect(h, stored, disk, size, at, blob, pos)
                     || (ranges == [] && at <= pos < at + PartSize(size, at)
                         && Accepted(h, stored, size, at, blob) && NoneBad(h, stored, disk, size, at, blob)))
  {
    var partSize, whole := PartSize(size, at), WholePart(size, at);
    CoveredEither(pos, ranges, [whole]);
    OneCovers(pos, whole);
    if Accepted(h, stored, size, at, blob) {
      var verified := VerifySpec(h, blob.value, at / PARTSIZE, size, stored.value).value;
      DiskLeafCount(h, disk, at, partSize);
      var found := Differences(DiskLeaves(h, disk, at, partSize), verified, at, partSize, 0);
      NoneBadFindsNothing(h, stored, disk, size, at, blob, found);
      CoveredEither(pos, ranges, found);
      if at <= pos < at + partSize {
        DifferencesAreBad(h, stored, disk, size, at, blob, found, pos);
      } else if Covered(pos, found) {
        var r :| r in found && r.lo <= pos < r.hi;
        DifferencesInPart(DiskLeaves(h, disk, at, partSize), verified, at, partSize, 0, r);
      }
    }
  }

  /** A byte of a block of which nothing is on disk is reopened if and only if the
      narrowing, its blob accepted, finds no bad block here and found nothing before. */
  lemma {:induction false} AbsentBlockIff(h: Hash, stored: Option<bytes>, disk: bytes, size: nat, at: nat, blob: Option<bytes>,
                                          ranges: seq<Span>, pos: nat)
    requires StartsPart(size, at) && Accepted(h, stored, size, at, blob)
    requires at <= pos < at + PartSize(size, at) && |disk| <= at + (pos - at) / BLOCKSIZE * BLOCKSIZE
    requires !Covered(pos, ranges)
    ensures Covered(pos, NarrowPart(h, stored, disk, size, at, blob, ranges).value)
            <==> ranges == [] && NoneBad(h, stored, disk, size, at, blob)
  {
    NarrowPartExact(h, stored, disk, size, at, blob, ranges, pos);
  }

  ghost predicate SuspectIn(h: Hash, stored: Option<bytes>, disk: bytes, size: nat, parts: seq<Span>, blobs: seq<Option<bytes>>,
                            pos: nat)
    requires |blobs| == |parts| && forall p :: p in parts ==> StartsPart(size, p.lo)
  {
    exists i :: 0 <= i < |parts| && Suspect(h, stored, disk, size, parts[i].lo, blobs[i], pos)
  }

  lemma {:induction false} FirstSuspect(h: Hash, stored: Option<bytes>, disk: bytes, size: nat, parts: seq<Span>,
                                        blobs: seq<Option<bytes>>, pos: nat)
    requires |blobs| == |parts| && (forall p :: p in parts ==> StartsPart(size, p.lo)) && parts != []
    ensures SuspectIn(h, stored, disk, size, parts, blobs, pos)
            <==> || Suspect(h, stored, disk, size, parts[0].lo, blobs[0], pos)
                 || SuspectIn(h, stored, disk, size, parts[1..], blobs[1..], pos)
  {
    if SuspectIn(h, stored, disk, size, parts[1..], blobs[1..], pos) {
      var i :| 0 <= i < |parts[1..]| && Suspect(h, stored, disk, size, parts[1..][i].lo, blobs[1..][i], pos);
      assert Suspect(h, stored, disk, size, parts[i + 1].lo, blobs[i + 1], pos);
    }
    if SuspectIn(h, stored, disk, size, parts, blobs, pos) {
      var i :| 0 <= i < |parts| && Suspect(h, stored, disk, size, parts[i].lo, blobs[i], pos);
      if i > 0 {
        assert Suspect(h, stored, disk, size, parts[1..][i - 1].lo, blobs[1..][i - 1], pos);
      }
    }
  }

  lemma {:induction false} NarrowRestExact(h: Hash, stored: Option<bytes>, disk: bytes, size: nat, parts: seq<Span>,
                                           blobs: seq<Option<bytes>>, ranges: seq<Span>, pos: nat)
    requires |blobs| == |parts| && (forall p :: p in parts ==> StartsPart(size, p.lo)) && ranges != []
    requires NarrowAll(h, stored, disk, size, parts, blobs, ranges).Success?
    ensures Covered(pos, NarrowAll(h, stored, disk, size, parts, blobs, ranges).value)
            <==> Covered(pos, ranges) || SuspectIn(h, stored, disk, size, parts, blobs, pos)
    decreases |parts|
  {
    if parts != [] {
      var next := NarrowPart(h, stored, disk, size, parts[0].lo, blobs[0], ranges).value;
      NarrowPartExact(h, stored, disk, size, parts[0].lo, blobs[0], ranges, pos);
      NarrowRestExact(h, stored, disk, size, parts[1..], blobs[1..], next, pos);
      FirstSuspect(h, stored, disk, size, parts, blobs, pos);
    }
  }

  /** The bytes to return: those of every part without an accepted blob, the bad blocks
      of the others, and the whole first part if it has none. */
  ghost predicate ToReturn(h: Hash, stored: Option<bytes>, disk: bytes, size: nat, parts: seq<Span>, blobs: seq<Option<bytes>>,
                           pos: nat)
    requires |blobs| == |parts| && forall p :: p in parts ==> StartsPart(size, p.lo)
  {
    || SuspectIn(h, stored, disk, size, parts, blobs, pos)
    || (&& parts != [] && parts[0].lo <= pos < parts[0].lo + PartSize(size, parts[0].lo)
        && Accepted(h, stored, size, parts[0].lo, blobs[0]) && NoneBad(h, stored, disk, size, parts[0].lo, blobs[0]))
  }

  /** Narrowing returns exactly those. */
  lemma {:induction false} NarrowingExact(h: Hash, stored: Option<bytes>, disk: bytes, size: nat, parts: seq<Span>,
                                          blobs: seq<Option<bytes>>, pos: nat)
    requires |blobs| == |parts| && forall p :: p in parts ==> StartsPart(size, p.lo)
    requires NarrowAll(h, stored, disk, size, parts, blobs, []).Success?
    ensures Covered(pos, NarrowAll(h, stored, disk, size, parts, blobs, []).value)
            <==> ToReturn(h, stored, disk, size, parts, blobs, pos)
  {
    if parts != [] {
      var next := NarrowPart(h, stored, disk, size, parts[0].lo, blobs[0], []).value;
      NarrowPartExact(h, stored, disk, size, parts[0].lo, blobs[0], [], pos);
      NarrowRestExact(h, stored, disk, size, parts[1..], blobs[1..], next, pos);
      FirstSuspect(h, stored, disk, size, parts, blobs, pos);
    }
  }
}
