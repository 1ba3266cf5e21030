/** The AICH hash tree of core/hashes/aich.py: the split, the streaming walk
    and the tree rebuilt from leaf hashes. */
module AichTree {
  import opened Base

  const BLOCKSIZE := 184_320
  const PARTSIZE := 9_728_000
  /** CeilDiv(PARTSIZE, BLOCKSIZE) */
  const BLOCKS_PER_PART := 53

  datatype Error = AichError | IndexError | StructError

  // ----- the split -----

  function LeftBlocks(count: nat, isLeft: bool): nat {
    if isLeft then (count + 1) / 2 else count / 2
  }

  /** Size of the left half of a segment above one block. The source raises
      when either half is empty; `0 < m < size` says that branch is dead. */
  function LeftSize(size: nat, isLeft: bool): (m: nat)
    requires size > BLOCKSIZE
    ensures 0 < m < size
  {
    if size <= PARTSIZE then
      var count := CeilDiv(size, BLOCKSIZE);
      var left := LeftBlocks(count, isLeft) * BLOCKSIZE;
      if left >= size then (count / 2) * BLOCKSIZE else left
    else
      var count := CeilDiv(size, PARTSIZE);
      var left := LeftBlocks(count, isLeft) * PARTSIZE;
      if left >= size then (count / 2) * PARTSIZE else left
  }

  /** Every split is balanced, counted in blocks up to one part and in parts above: l
      whole units go left, the rest are r units, and the odd one falls to the side
      that the segment itself is on. */
  lemma {:induction false} BalancedSplit(size: nat, isLeft: bool) returns (l: nat, r: nat)
    requires size > 184_320
    ensures size <= 9_728_000 ==>
              LeftSize(size, isLeft) == l * 184_320 && (l + r - 1) * 184_320 < size <= (l + r) * 184_320
    ensures size > 9_728_000 ==>
              LeftSize(size, isLeft) == l * 9_728_000 && (l + r - 1) * 9_728_000 < size <= (l + r) * 9_728_000
    ensures if isLeft then r <= l <= r + 1 else l <= r <= l + 1
  {
    var count := CeilDiv(size, if size <= PARTSIZE then BLOCKSIZE else PARTSIZE);
    l := LeftBlocks(count, isLeft);
    r := count - l;
  }

  /** The shape of the hash tree over a segment: what every walk recurses on. */
  datatype Shape = Block(n: nat) | Split(left: Shape, right: Shape) {
    function Size(): nat {
      match this
      case Block(n) => n
      case Split(l, r) => l.Size() + r.Size()
    }

    function LeafCount(): nat {
      match this
      case Block(n) => if n == 0 then 0 else 1
      case Split(l, r) => l.LeafCount() + r.LeafCount()
    }

    /** The byte ranges of the leaves, left to right, of a segment at `start`. */
    function Spans(start: nat): seq<Span> {
      match this
      case Block(n) => if n == 0 then [] else [Span(start, start + n)]
      case Split(l, r) => l.Spans(start) + r.Spans(start + l.Size())
    }
  }

  datatype Span = Span(lo: nat, hi: nat)

  /** Some number, never looked at. Functions that recurse on sizes take it as an
      argument, so that the verifier does not compute whole trees for constants. */
  const ANY: int

  function ShapeOf(size: nat, isLeft: bool, unused: int := ANY): (s: Shape)
    ensures s.Size() == size
    ensures s.Block? <==> size <= BLOCKSIZE
    decreases size, unused
  {
    if size <= BLOCKSIZE then Block(size)
    else
      var m := LeftSize(size, isLeft);
      Split(ShapeOf(m, true, unused), ShapeOf(size - m, false, unused))
  }

  // ----- the streaming walk -----

  /** Hash of an inner node. */
  function HashPair(h: Hash, left: bytes, right: bytes): (digest: bytes)
    ensures |digest| == 20
  {
    Sha1(h, left + right)
  }

  /** Hash of the segment at `start`, as the streaming walk computes it. */
  function Root(h: Hash, data: bytes, start: nat, s: Shape): (digest: bytes)
    requires start + s.Size() <= |data|
    ensures |digest| == 20
    decreases s
  {
    match s
    case Block(n) => Sha1(h, data[start..start + n])
    case Split(l, r) => HashPair(h, Root(h, data, start, l), Root(h, data, start + l.Size(), r))
  }

  /** Block hashes of the segment, in the order the streaming walk appends them. */
  function Leaves(h: Hash, data: bytes, start: nat, s: Shape): seq<bytes>
    requires start + s.Size() <= |data|
    decreases s
  {
    match s
    case Block(n) => if n == 0 then [] else [Sha1(h, data[start..start + n])]
    case Split(l, r) => Leaves(h, data, start, l) + Leaves(h, data, start + l.Size(), r)
  }

  /** The list the source passes down the recursion and appends to. */
  class LeafList {
    var items: seq<bytes>

    constructor ()
      ensures items == []
    {
      items := [];
    }
  }

  /** `_read_segment` */
  method ReadSegment(data: bytes, start: nat, size: nat) returns (r: Result<bytes, Error>)
    ensures start + size <= |data| ==> r == Success(data[start..start + size])
    ensures start + size > |data| && size > 0 ==> r == Failure(AichError)
  {
    var block := Slice(data, start, start + size);
    if |block| != size {
      return Failure(AichError);
    }
    return Success(block);
  }

  /** The shape of a segment is split where the segment is. */
  lemma {:induction false} ShapeSplits(size: nat, isLeft: bool, m: nat, s: Shape)
    requires size > BLOCKSIZE && m == LeftSize(size, isLeft) && s == ShapeOf(size, isLeft)
    ensures s == Split(ShapeOf(m, true), ShapeOf(size - m, false))
  {
  }

  lemma {:induction false} SplitHashed(h: Hash, data: bytes, start: nat, l: Shape, r: Shape)
    requires start + l.Size() + r.Size() <= |data|
    ensures Root(h, data, start, Split(l, r)) == HashPair(h, Root(h, data, start, l), Root(h, data, start + l.Size(), r))
    ensures Leaves(h, data, start, Split(l, r)) == Leaves(h, data, start, l) + Leaves(h, data, start + l.Size(), r)
  {
  }

  /** The digest of a segment: SHA-1 of its bytes up to one block, otherwise SHA-1 of the
      digests of its two halves, the first taken as a left one, the second as a right one. */
  lemma {:induction false} DigestOfSegment(h: Hash, data: bytes, start: nat, size: nat, isLeft: bool)
    requires start + size <= |data|
    ensures size <= 184_320 ==> Root(h, data, start, ShapeOf(size, isLeft)) == Sha1(h, data[start..start + size])
    ensures size > 184_320 ==>
              var m := LeftSize(size, isLeft);
              Root(h, data, start, ShapeOf(size, isLeft))
              == Sha1(h, Root(h, data, start, ShapeOf(m, true)) + Root(h, data, start + m, ShapeOf(size - m, false)))
  {
    if size > BLOCKSIZE {
      var m := LeftSize(size, isLeft);
      ShapeSplits(size, isLeft, m, ShapeOf(size, isLeft));
      SplitHashed(h, data, start, ShapeOf(m, true), ShapeOf(size - m, false));
    }
  }

  /** What the walk is to find: the digest and the leaves of the segment's shape. */
  ghost predicate Expected(h: Hash, data: bytes, start: nat, size: nat, isLeft: bool, s: Shape, digest: bytes, list: seq<bytes>) {
    && s == ShapeOf(size, isLeft)
    && (start + s.Size() <= |data| ==> digest == Root(h, data, start, s) && list == Leaves(h, data, start, s))
  }

  lemma {:induction false} ExpectedBlock(h: Hash, data: bytes, start: nat, size: nat, isLeft: bool, s: Shape, digest: bytes, list: seq<bytes>)
    requires Expected(h, data, start, size, isLeft, s, digest, list) && size <= BLOCKSIZE && start + size <= |data|
    ensures digest == Sha1(h, data[start..start + size])
    ensures list == if size == 0 then [] else [digest]
  {
  }

  /** The two halves of what is expected: a digest pair, and lists back to back. */
  lemma {:induction false} ExpectedHalves(h: Hash, data: bytes, start: nat, size: nat, isLeft: bool, s: Shape, digest: bytes, list: seq<bytes>,
                       m: nat)
    returns (left: bytes, right: bytes, lower: seq<bytes>, upper: seq<bytes>)
    requires Expected(h, data, start, size, isLeft, s, digest, list) && size > BLOCKSIZE && m == LeftSize(size, isLeft)
    ensures s.Split? && s.left.Size() == m && s.right.Size() == size - m
    ensures Expected(h, data, start, m, true, s.left, left, lower)
    ensures Expected(h, data, start + m, size - m, false, s.right, right, upper)
    ensures start + size <= |data| ==> digest == HashPair(h, left, right) && list == lower + upper
  {
    ShapeSplits(size, isLeft, m, s);
    left, lower := ExpectedOf(h, data, start, s.left);
    right, upper := ExpectedOf(h, data, start + m, s.right);
    if start + size <= |data| {
      SplitHashed(h, data, start, s.left, s.right);
    }
  }

  lemma {:induction false} ExpectedOf(h: Hash, data: bytes, start: nat, s: Shape) returns (digest: bytes, list: seq<bytes>)
    ensures start + s.Size() <= |data| ==> digest == Root(h, data, start, s) && list == Leaves(h, data, start, s)
  {
    digest, list := [], [];
    if start + s.Size() <= |data| {
      digest, list := Root(h, data, start, s), Leaves(h, data, start, s);
    }
  }

  /** `_hash_aich_segment`, against the digest and leaves expected of the segment. A
      read that comes back short is an AichError. */
  method HashSegment(h: Hash, data: bytes, start: nat, size: int, isLeft: bool, leaves: LeafList,
                     ghost s: Shape, ghost digest: bytes, ghost list: seq<bytes>)
    returns (r: Result<bytes, Error>)
    requires size >= 0 ==> Expected(h, data, start, size, isLeft, s, digest, list)
    modifies leaves
    ensures size < 0 ==> r == Failure(AichError) && leaves.items == old(leaves.items)
    ensures size == 0 ==> r == Success(Sha1(h, [])) && leaves.items == old(leaves.items)
    ensures 0 <= size && start + size <= |data| ==> r == Success(digest) && leaves.items == old(leaves.items) + list
    ensures 0 < size && start + size > |data| ==> r == Failure(AichError)
    decreases size
  {
    if size < 0 {
      return Failure(AichError);
    }
    if start + size <= |data| && size <= BLOCKSIZE {
      ExpectedBlock(h, data, start, size, isLeft, s, digest, list);
    }
    if size == 0 {
      assert start <= |data| ==> data[start..start + size] == [];
      return Success(Sha1(h, []));
    }
    if size <= BLOCKSIZE {
      var block := ReadSegment(data, start, size);
      if block.Failure? {
        return Failure(block.error);
      }
      var d := Sha1(h, block.value);
      leaves.items := leaves.items + [d];
      return Success(d);
    }
    var leftSize := LeftSize(size, isLeft);
    ghost var expectedLeft, expectedRight, lower, upper :=
      ExpectedHalves(h, data, start, size, isLeft, s, digest, list, leftSize);
    ConcatAssoc(leaves.items, lower, upper);
    var left := HashSegment(h, data, start, leftSize, true, leaves, s.left, expectedLeft, lower);
    if left.Failure? {
      return Failure(left.error);
    }
    var right := HashSegment(h, data, start + leftSize, size - leftSize, false, leaves, s.right, expectedRight, upper);
    if right.Failure? {
      return Failure(right.error);
    }
    return Success(HashPair(h, left.value, right.value));
  }

  /** `aich_hash_data` */
  method HashData(h: Hash, payload: bytes) returns (master: bytes, blockHashes: seq<bytes>)
    ensures master == Root(h, payload, 0, ShapeOf(|payload|, true))
    ensures blockHashes == Leaves(h, payload, 0, ShapeOf(|payload|, true))
  {
    var leaves := new LeafList();
    ghost var s := ShapeOf(|payload|, true);
    var digest := HashSegment(h, payload, 0, |payload|, true, leaves, s, Root(h, payload, 0, s), Leaves(h, payload, 0, s));
    return digest.value, leaves.items;
  }

  // ----- where the leaves lie -----

  /** The number of blocks of a flat scan: 53 to a whole part. */
  function BlockCount(size: nat): nat {
    BLOCKS_PER_PART * (size / PARTSIZE) + CeilDiv(size % PARTSIZE, BLOCKSIZE)
  }

  /** The blocks of one part, front to back. */
  function PartSpans(start: nat, size: nat, unused: int := ANY): seq<Span>
    decreases size, unused
  {
    if size == 0 then []
    else if size <= BLOCKSIZE then [Span(start, start + size)]
    else [Span(start, start + BLOCKSIZE)] + PartSpans(start + BLOCKSIZE, size - BLOCKSIZE, unused)
  }

  /** The blocks of a file: part by part, each part from its own start. */
  function FlatSpans(start: nat, size: nat, unused: int := ANY): seq<Span>
    decreases size, unused
  {
    if size <= PARTSIZE then PartSpans(start, size, unused)
    else PartSpans(start, PARTSIZE, unused) + FlatSpans(start + PARTSIZE, size - PARTSIZE, unused)
  }

  /** A split point is a whole number of parts, or lies inside a single part
      and is a whole number of blocks. */
  predicate CleanCut(size: nat, m: nat) {
    && 0 < m < size
    && (m % PARTSIZE == 0 || (size <= PARTSIZE && m % BLOCKSIZE == 0))
  }

  lemma {:induction false} SplitIsClean(size: nat, isLeft: bool)
    requires size > BLOCKSIZE
    ensures CleanCut(size, LeftSize(size, isLeft))
  {
  }

  lemma {:induction false} CutCounts(size: nat, m: nat)
    requires CleanCut(size, m)
    ensures BlockCount(m) + BlockCount(size - m) == BlockCount(size)
  {
    if m % PARTSIZE == 0 {
      var k := m / PARTSIZE;
      assert size / PARTSIZE == k + (size - m) / PARTSIZE;
      assert size % PARTSIZE == (size - m) % PARTSIZE;
    } else {
      assert BlockCount(m) == m / BLOCKSIZE;
      assert BlockCount(size) == CeilDiv(size, BLOCKSIZE);
      assert BlockCount(size - m) == CeilDiv(size - m, BLOCKSIZE);
    }
  }

  lemma {:induction false} ShapeLeafCount(size: nat, isLeft: bool)
    ensures ShapeOf(size, isLeft).LeafCount() == BlockCount(size)
    decreases size
  {
    if size > BLOCKSIZE {
      var m := LeftSize(size, isLeft);
      ShapeLeafCount(m, true);
      ShapeLeafCount(size - m, false);
      SplitIsClean(size, isLeft);
      CutCounts(size, m);
    }
  }

  lemma {:induction false} PartSpansCut(start: nat, size: nat, m: nat)
    requires m < size && m % BLOCKSIZE == 0
    ensures PartSpans(start, size) == PartSpans(start, m) + PartSpans(start + m, size - m)
    decreases m
  {
    if m > 0 {
      PartSpansCut(start + BLOCKSIZE, size - BLOCKSIZE, m - BLOCKSIZE);
      assert PartSpans(start, m) == [Span(start, start + BLOCKSIZE)] + PartSpans(start + BLOCKSIZE, m - BLOCKSIZE);
    }
  }

  lemma {:induction false} FlatSpansCut(start: nat, size: nat, m: nat)
    requires m < size && m % PARTSIZE == 0
    ensures FlatSpans(start, size) == FlatSpans(start, m) + FlatSpans(start + m, size - m)
    decreases m
  {
    if m > 0 {
      FlatSpansCut(start + PARTSIZE, size - PARTSIZE, m - PARTSIZE);
      assert FlatSpans(start, m) == PartSpans(start, PARTSIZE) + FlatSpans(start + PARTSIZE, m - PARTSIZE);
    }
  }

  /** The recursive walk meets exactly the blocks of the flat, part-by-part scan,
      whichever branch the segment hangs on. */
  lemma {:induction false} SpansAreFlat(start: nat, size: nat, isLeft: bool)
    ensures ShapeOf(size, isLeft).Spans(start) == FlatSpans(start, size)
    decreases size
  {
    if size > BLOCKSIZE {
      var m := LeftSize(size, isLeft);
      SpansAreFlat(start, m, true);
      SpansAreFlat(start + m, size - m, false);
      SplitIsClean(size, isLeft);
      if m % PARTSIZE == 0 {
        FlatSpansCut(start, size, m);
      } else {
        PartSpansCut(start, size, m);
      }
    }
  }

  /** The blocks of a part are numbered from its start, BLOCKSIZE apart. */
  lemma {:induction false} PartBlock(start: nat, size: nat, j: nat)
    requires j < |PartSpans(start, size)|
    ensures PartSpans(start, size)[j] == Span(start + j * BLOCKSIZE, Min(start + (j + 1) * BLOCKSIZE, start + size))
    ensures j * BLOCKSIZE < size
    decreases j
  {
    if j > 0 {
      PartBlock(start + BLOCKSIZE, size - BLOCKSIZE, j - 1);
    }
  }

  ghost predicate Tiles(spans: seq<Span>, lo: nat, hi: nat) {
    if spans == [] then lo == hi
    else spans[0].lo == lo < spans[0].hi && Tiles(spans[1..], spans[0].hi, hi)
  }

  lemma {:induction false} TilesConcat(a: seq<Span>, b: seq<Span>, lo: nat, mid: nat, hi: nat)
    requires Tiles(a, lo, mid) && Tiles(b, mid, hi)
    ensures Tiles(a + b, lo, hi)
  {
    if a == [] {
      assert a + b == b;
    } else {
      TilesConcat(a[1..], b, a[0].hi, mid, hi);
      assert (a + b)[1..] == a[1..] + b;
    }
  }

  lemma {:induction false} SpansTile(s: Shape, start: nat)
    ensures Tiles(s.Spans(start), start, start + s.Size())
    ensures |s.Spans(start)| == s.LeafCount()
    decreases s
  {
    if s.Split? {
      SpansTile(s.left, start);
      SpansTile(s.right, start + s.left.Size());
      TilesConcat(s.left.Spans(start), s.right.Spans(start + s.left.Size()),
                  start, start + s.left.Size(), start + s.Size());
    }
  }

  lemma {:induction false} LeafCountIsLength(h: Hash, data: bytes, start: nat, s: Shape)
    requires start + s.Size() <= |data|
    ensures |Leaves(h, data, start, s)| == s.LeafCount()
    decreases s
  {
    if s.Split? {
      LeafCountIsLength(h, data, start, s.left);
      LeafCountIsLength(h, data, start + s.left.Size(), s.right);
    }
  }

  lemma {:induction false} LeavesHashSpans(h: Hash, data: bytes, start: nat, s: Shape)
    requires start + s.Size() <= |data|
    ensures |Leaves(h, data, start, s)| == |s.Spans(start)| == s.LeafCount()
    ensures forall i :: 0 <= i < |s.Spans(start)| ==>
              && s.Spans(start)[i].lo <= s.Spans(start)[i].hi <= start + s.Size()
              && Leaves(h, data, start, s)[i] == Sha1(h, data[s.Spans(start)[i].lo..s.Spans(start)[i].hi])
    decreases s
  {
    if s.Split? {
      LeavesHashSpans(h, data, start, s.left);
      LeavesHashSpans(h, data, start + s.left.Size(), s.right);
    }
  }

  /** The streaming walk partitions the file: its leaves tile it in order, are
      the blocks of the flat scan, and number 53 a part plus the tail's blocks. */
  lemma {:induction false} StreamingPartition(h: Hash, data: bytes)
    ensures var shape := ShapeOf(|data|, true);
            var spans, leaves := FlatSpans(0, |data|), Leaves(h, data, 0, shape);
            && Tiles(spans, 0, |data|)
            && |leaves| == |spans| == BlockCount(|data|)
            && (forall i :: 0 <= i < |spans| ==>
                  && spans[i].lo <= spans[i].hi <= |data|
                  && leaves[i] == Sha1(h, data[spans[i].lo..spans[i].hi]))
  {
    var shape := ShapeOf(|data|, true);
    SpansAreFlat(0, |data|, true);
    SpansTile(shape, 0);
    ShapeLeafCount(|data|, true);
    LeavesHashSpans(h, data, 0, shape);
  }
}
