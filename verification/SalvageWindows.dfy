/** The salvaged ranges are whole block windows: the blocks of the hash tree are the
    windows that block selection works in. */
module SalvageWindows {
  import opened Base
  import opened AichTree
  import opened AichPath
  import AichVerify
  import opened Salvage
  import opened Registry

  /** A range of whole windows of the file. */
  ghost predicate WholeSpan(size: nat, r: Span) {
    forall x, y :: r.lo <= x < r.hi && 0 <= y < size && SameWindow(x, y) ==> r.lo <= y < r.hi
  }

  ghost predicate AllWhole(size: nat, ranges: seq<Span>) {
    forall i :: 0 <= i < |ranges| ==> WholeSpan(size, ranges[i])
  }

  lemma {:induction false} PartIsWhole(size: nat, at: nat)
    requires StartsPart(size, at)
    ensures WholeSpan(size, WholePart(size, at))
  {
    forall x, y | at <= x < at + PartSize(size, at) && 0 <= y < size && SameWindow(x, y)
      ensures at <= y < at + PartSize(size, at)
    {
      assert x / PARTSIZE == at / PARTSIZE;
    }
  }

  /** Byte x of block j of the part at `at`. */
  lemma {:induction false} WindowOf(at: nat, x: int, j: nat)
    requires at % PARTSIZE == 0 && at <= x < at + PARTSIZE
    requires at + j * BLOCKSIZE <= x < at + j * BLOCKSIZE + BLOCKSIZE
    ensures x / PARTSIZE == at / PARTSIZE && (x % PARTSIZE) / BLOCKSIZE == j
  {
    assert x == PARTSIZE * (at / PARTSIZE) + (x - at);
    DivModUnique(x, PARTSIZE, at / PARTSIZE, x - at);
    DivModUnique(x - at, BLOCKSIZE, j, x - at - j * BLOCKSIZE);
  }

  lemma {:induction false} BlockIsWhole(size: nat, at: nat, j: nat)
    requires StartsPart(size, at) && j * BLOCKSIZE < PartSize(size, at)
    ensures WholeSpan(size, BlockRange(at, PartSize(size, at), j))
  {
    var r := BlockRange(at, PartSize(size, at), j);
    forall x, y | r.lo <= x < r.hi && 0 <= y < size && SameWindow(x, y)
      ensures r.lo <= y < r.hi
    {
      WindowOf(at, x, j);
      var rel := y % PARTSIZE;
      assert y == PARTSIZE * (y / PARTSIZE) + rel && at == PARTSIZE * (at / PARTSIZE);
      assert rel / BLOCKSIZE == j && BLOCKSIZE * (rel / BLOCKSIZE) <= rel < BLOCKSIZE * (rel / BLOCKSIZE) + BLOCKSIZE;
    }
  }

  lemma {:induction false} DifferencesAreWhole(ours: seq<bytes>, verified: seq<bytes>, size: nat, at: nat, j: nat)
    requires StartsPart(size, at) && |ours| * BLOCKSIZE < PartSize(size, at) + BLOCKSIZE
    ensures AllWhole(size, Differences(ours, verified, at, PartSize(size, at), j))
    decreases |ours| - j
  {
    if j < |ours| && j < |verified| {
      BlockIsWhole(size, at, j);
      DifferencesAreWhole(ours, verified, size, at, j + 1);
    }
  }

  lemma {:induction false} NarrowedPartIsWhole(h: Hash, stored: Option<bytes>, disk: bytes, size: nat, at: nat,
                                               blob: Option<bytes>, ranges: seq<Span>)
    requires StartsPart(size, at) && AllWhole(size, ranges)
    ensures var r := NarrowPart(h, stored, disk, size, at, blob, ranges);
            r.Success? ==> AllWhole(size, r.value)
  {
    PartIsWhole(size, at);
    if stored.Some? && blob.Some? && blob.value != [] {
      NarrowedWithIsWhole(h, disk, size, at, AichVerify.VerifySpec(h, blob.value, at / PARTSIZE, size, stored.value), ranges);
    }
  }

  lemma {:induction false} NarrowedWithIsWhole(h: Hash, disk: bytes, size: nat, at: nat, verified: Result<seq<bytes>, AichTree.Error>,
                                               ranges: seq<Span>)
    requires StartsPart(size, at) && AllWhole(size, ranges)
    ensures var r := NarrowWith(h, disk, size, at, verified, ranges);
            r.Success? ==> AllWhole(size, r.value)
  {
    PartIsWhole(size, at);
    if verified.Success? {
      var ours := DiskLeaves(h, disk, at, PartSize(size, at));
      DiskLeafCount(h, disk, at, PartSize(size, at));
      DifferencesAreWhole(ours, verified.value, size, at, 0);
    }
  }

  /** Whatever the narrowing returns is whole windows of the file. */
  lemma {:induction false} NarrowedIsWhole(h: Hash, stored: Option<bytes>, disk: bytes, size: nat, parts: seq<Span>,
                                           blobs: seq<Option<bytes>>, ranges: seq<Span>)
    requires |blobs| == |parts| && forall p :: p in parts ==> StartsPart(size, p.lo)
    requires AllWhole(size, ranges)
    ensures var r := NarrowAll(h, stored, disk, size, parts, blobs, ranges);
            r.Success? ==> AllWhole(size, r.value)
    decreases |parts|
  {
    if parts != [] {
      NarrowedPartIsWhole(h, stored, disk, size, parts[0].lo, blobs[0], ranges);
      var next := NarrowPart(h, stored, disk, size, parts[0].lo, blobs[0], ranges);
      if next.Success? {
        NarrowedIsWhole(h, stored, disk, size, parts[1..], blobs[1..], next.value);
      }
    }
  }
}
