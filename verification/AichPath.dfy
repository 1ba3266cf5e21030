/** Path identifiers: the walk from the root to one part, and the leaves below it. */
module AichPath {
  import opened Base
  import opened AichTree

  predicate IsLeft(ident: nat) {
    ident % 2 == 1
  }

  /** `(ident << 1) | bit` */
  function Child(ident: nat, isLeft: bool): (child: nat)
    ensures IsLeft(child) == isLeft
  {
    2 * ident + if isLeft then 1 else 0
  }

  /** One more bit, set for the left side. */
  lemma {:induction false} ChildBits(ident: nat, isLeft: bool)
    ensures Child(ident, isLeft) / 2 == ident && Child(ident, isLeft) % 2 == if isLeft then 1 else 0
  {
  }

  // ----- the walk to the part at offset `at` of a segment -----

  /** One step down: the side the part is on, and the ident of the other side. */
  datatype Turn = Turn(goLeft: bool, sibling: nat)

  predicate AtPart(s: Shape) {
    s.Block? || s.Size() <= PARTSIZE
  }

  function Chain(s: Shape, at: nat, ident: nat): seq<Turn>
    requires at < s.Size()
    decreases s
  {
    if AtPart(s) then []
    else if at < s.left.Size() then [Turn(true, Child(ident, false))] + Chain(s.left, at, Child(ident, true))
    else [Turn(false, Child(ident, true))] + Chain(s.right, at - s.left.Size(), Child(ident, false))
  }

  function PartIdent(s: Shape, at: nat, ident: nat): nat
    requires at < s.Size()
    decreases s
  {
    if AtPart(s) then ident
    else if at < s.left.Size() then PartIdent(s.left, at, Child(ident, true))
    else PartIdent(s.right, at - s.left.Size(), Child(ident, false))
  }

  /** The subtree the walk ends on, and its offset. */
  function PartShape(s: Shape, at: nat): Shape
    requires at < s.Size()
    decreases s
  {
    if AtPart(s) then s
    else if at < s.left.Size() then PartShape(s.left, at)
    else PartShape(s.right, at - s.left.Size())
  }

  function PartOffset(s: Shape, at: nat): (offset: nat)
    requires at < s.Size()
    ensures offset <= at && offset + PartShape(s, at).Size() <= s.Size()
    decreases s
  {
    if AtPart(s) then 0
    else if at < s.left.Size() then PartOffset(s.left, at)
    else s.left.Size() + PartOffset(s.right, at - s.left.Size())
  }

  function PartSize(fileSize: nat, partStart: nat): nat
    requires partStart < fileSize
  {
    Min(PARTSIZE, fileSize - partStart)
  }

  /** `at` is the start of a part of a file of this size. */
  predicate StartsPart(size: nat, at: nat) {
    at < size && at % PARTSIZE == 0
  }

  lemma {:induction false} PartStarts(partIndex: int, at: int, size: nat)
    requires at == partIndex * PARTSIZE && 0 <= at < size
    ensures StartsPart(size, at)
  {
  }

  /** Splits above one part fall on part boundaries, so they keep every part whole. */
  lemma {:induction false} PartInHalf(size: nat, at: nat, isLeft: bool)
    requires size > PARTSIZE && StartsPart(size, at)
    ensures var m := LeftSize(size, isLeft);
            && (at < m ==> StartsPart(m, at) && PartSize(m, at) == PartSize(size, at))
            && (at >= m ==> StartsPart(size - m, at - m) && PartSize(size - m, at - m) == PartSize(size, at))
  {
    var m := LeftSize(size, isLeft);
    assert m % PARTSIZE == 0;
    if at < m {
      assert at + PARTSIZE <= m;
    }
  }

  lemma {:induction false} LastPart(size: nat, at: nat)
    requires StartsPart(size, at)
    ensures at == 0 && PartSize(size, at) == size <==> size <= PARTSIZE
  {
  }

  /** One step of every walk: the halves of a node are the shapes of its halves. */
  lemma {:induction false} ShapeHalves(node: Shape, size: nat, ident: nat)
    requires size > PARTSIZE && node == ShapeOf(size, IsLeft(ident))
    ensures var m := LeftSize(size, IsLeft(ident));
            && !AtPart(node) && node.left.Size() == m
            && node.left == ShapeOf(m, IsLeft(Child(ident, true)))
            && node.right == ShapeOf(size - m, IsLeft(Child(ident, false)))
  {
  }

  /** `node_start`, `node_size` and `ident`, which both size-only walks update. */
  datatype Cursor = Cursor(start: nat, size: nat, ident: nat)

  predicate GoesLeft(c: Cursor, partStart: nat)
    requires c.size > BLOCKSIZE
  {
    partStart < c.start + LeftSize(c.size, IsLeft(c.ident))
  }

  function Down(c: Cursor, partStart: nat): Cursor
    requires c.size > BLOCKSIZE
  {
    var leftSize := LeftSize(c.size, IsLeft(c.ident));
    if GoesLeft(c, partStart) then Cursor(c.start, leftSize, Child(c.ident, true))
    else Cursor(c.start + leftSize, c.size - leftSize, Child(c.ident, false))
  }

  predicate Arrived(c: Cursor, partStart: nat, partSize: nat) {
    c.start == partStart && c.size == partSize
  }

  /** The cursor is on the node of the given shape, above the part. */
  ghost predicate OnWalk(c: Cursor, partStart: nat, partSize: nat, node: Shape) {
    && c.start <= partStart
    && StartsPart(c.size, partStart - c.start)
    && partSize == PartSize(c.size, partStart - c.start)
    && node == ShapeOf(c.size, IsLeft(c.ident))
  }

  lemma {:induction false} WalkDown(c: Cursor, partStart: nat, partSize: nat, node: Shape)
    requires OnWalk(c, partStart, partSize, node) && !Arrived(c, partStart, partSize)
    ensures c.size > PARTSIZE && !AtPart(node)
    ensures GoesLeft(c, partStart) <==> partStart - c.start < node.left.Size()
    ensures var next := Down(c, partStart);
            && next.size < c.size
            && next.ident == Child(c.ident, GoesLeft(c, partStart))
            && next.start == c.start + (if GoesLeft(c, partStart) then 0 else node.left.Size())
            && OnWalk(next, partStart, partSize, if GoesLeft(c, partStart) then node.left else node.right)
  {
    LastPart(c.size, partStart - c.start);
    PartInHalf(c.size, partStart - c.start, IsLeft(c.ident));
    ShapeHalves(node, c.size, c.ident);
  }

  /** The cursor starts on the walk. */
  lemma {:induction false} StartsOnWalk(size: nat, at: nat, ident: nat)
    requires StartsPart(size, at)
    ensures OnWalk(Cursor(0, size, ident), at, PartSize(size, at), ShapeOf(size, IsLeft(ident)))
  {
  }

  /** The walk over a segment at `start` ends exactly on the given part. */
  ghost predicate Reaches(s: Shape, start: nat, partStart: nat, partSize: nat) {
    && start <= partStart < start + s.Size()
    && if AtPart(s) then start == partStart && s.Size() == partSize
       else
         var middle := start + s.left.Size();
         && s.Size() != partSize
         && (partStart < middle ==> Reaches(s.left, start, partStart, partSize))
         && (partStart >= middle ==> Reaches(s.right, middle, partStart, partSize))
  }

  lemma {:induction false} EveryPartReached(s: Shape, c: Cursor, partStart: nat, partSize: nat)
    requires OnWalk(c, partStart, partSize, s)
    ensures Reaches(s, c.start, partStart, partSize)
    decreases s
  {
    LastPart(c.size, partStart - c.start);
    if !AtPart(s) {
      WalkDown(c, partStart, partSize, s);
      EveryPartReached(if GoesLeft(c, partStart) then s.left else s.right, Down(c, partStart), partStart, partSize);
    }
  }

  /** The walk arrives at the start of the part, on a node of its size. */
  lemma {:induction false} ReachedPart(s: Shape, start: nat, partStart: nat, partSize: nat)
    requires Reaches(s, start, partStart, partSize)
    ensures PartOffset(s, partStart - start) == partStart - start
    ensures PartShape(s, partStart - start).Size() == partSize
    decreases s
  {
    if !AtPart(s) {
      if partStart < start + s.left.Size() {
        ReachedPart(s.left, start, partStart, partSize);
      } else {
        ReachedPart(s.right, start + s.left.Size(), partStart, partSize);
      }
    }
  }

  /** The part lies inside every node above it. */
  lemma {:induction false} ReachedInside(s: Shape, start: nat, partStart: nat, partSize: nat)
    requires Reaches(s, start, partStart, partSize)
    ensures partStart + partSize <= start + s.Size()
    decreases s
  {
    if !AtPart(s) {
      if partStart < start + s.left.Size() {
        ReachedInside(s.left, start, partStart, partSize);
      } else {
        ReachedInside(s.right, start + s.left.Size(), partStart, partSize);
      }
    }
  }

  lemma {:induction false} Halves(s: Shape, size: nat, isLeft: bool, m: nat)
    requires size > BLOCKSIZE && m == LeftSize(size, isLeft) && s == ShapeOf(size, isLeft)
    ensures s == Split(ShapeOf(m, true), ShapeOf(size - m, false))
    ensures s.left == ShapeOf(s.left.Size(), true) && s.right == ShapeOf(s.right.Size(), false)
  {
    ShapeSplits(size, isLeft, m, s);
  }

  /** The node the walk arrives at is the shape of its size. */
  lemma {:induction false} ReachedShape(s: Shape, isLeft: bool, at: nat, ident: nat)
    requires s == ShapeOf(s.Size(), isLeft) && IsLeft(ident) == isLeft && at < s.Size()
    ensures PartShape(s, at) == ShapeOf(PartShape(s, at).Size(), IsLeft(PartIdent(s, at, ident)))
    decreases s
  {
    if !AtPart(s) {
      Halves(s, s.Size(), isLeft, LeftSize(s.Size(), isLeft));
      if at < s.left.Size() {
        ReachedShape(s.left, true, at, Child(ident, true));
      } else {
        ReachedShape(s.right, false, at - s.left.Size(), Child(ident, false));
      }
    }
  }

  lemma {:induction false} FileReached(s: Shape, size: nat, at: nat, ident: nat)
    requires s == ShapeOf(size, IsLeft(ident)) && StartsPart(size, at)
    ensures Reaches(s, 0, at, PartSize(size, at))
  {
    StartsOnWalk(size, at, ident);
    EveryPartReached(s, Cursor(0, size, ident), at, PartSize(size, at));
  }

  lemma {:induction false} ReachedNode(s: Shape, size: nat, isLeft: bool, at: nat, ident: nat, partSize: nat)
    requires s == ShapeOf(size, isLeft) && isLeft == IsLeft(ident) && Reaches(s, 0, at, partSize)
    ensures PartOffset(s, at) == at
    ensures PartShape(s, at) == ShapeOf(partSize, IsLeft(PartIdent(s, at, ident)))
  {
    ReachedPart(s, 0, at, partSize);
    ReachedShape(s, isLeft, at, ident);
  }

  /** From any file, the walk to a part start ends on the node of that part. */
  lemma {:induction false} WalkEndsOnPart(s: Shape, size: nat, at: nat, ident: nat)
    requires s == ShapeOf(size, IsLeft(ident)) && StartsPart(size, at)
    ensures PartOffset(s, at) == at
    ensures PartShape(s, at) == ShapeOf(PartSize(size, at), IsLeft(PartIdent(s, at, ident)))
  {
    FileReached(s, size, at, ident);
    ReachedNode(s, size, IsLeft(ident), at, ident, PartSize(size, at));
  }

  // ----- the walk as a loop over sizes -----

  /** The cursor is on the way down, on a node of its shape. */
  ghost predicate OnPath(c: Cursor, partStart: nat, partSize: nat, node: Shape) {
    node == ShapeOf(c.size, IsLeft(c.ident)) && Reaches(node, c.start, partStart, partSize)
  }

  lemma {:induction false} ArrivesAtPart(c: Cursor, partStart: nat, partSize: nat, node: Shape)
    requires OnPath(c, partStart, partSize, node)
    ensures Arrived(c, partStart, partSize) <==> AtPart(node)
    ensures !Arrived(c, partStart, partSize) ==> c.size > PARTSIZE
  {
  }

  /** One step down in the tree: what is left of the chain and the ident of the
      part are those of the next node. */
  lemma {:induction false} StepInTree(node: Shape, next: Shape, start: nat, nextStart: nat, ident: nat, partStart: nat, partSize: nat,
                   goLeft: bool)
    requires Reaches(node, start, partStart, partSize) && !AtPart(node)
    requires goLeft == (partStart < start + node.left.Size())
    requires next == (if goLeft then node.left else node.right)
    requires nextStart == start + if goLeft then 0 else node.left.Size()
    ensures Reaches(next, nextStart, partStart, partSize)
    ensures PartIdent(node, partStart - start, ident) == PartIdent(next, partStart - nextStart, Child(ident, goLeft))
    ensures Chain(node, partStart - start, ident)
            == [Turn(goLeft, Child(ident, !goLeft))] + Chain(next, partStart - nextStart, Child(ident, goLeft))
  {
  }

  /** One step down over sizes. */
  lemma {:induction false} StepInSizes(c: Cursor, d: Cursor, partStart: nat, node: Shape, next: Shape, goLeft: bool)
    requires node == ShapeOf(c.size, IsLeft(c.ident)) && c.size > PARTSIZE
    requires d == Down(c, partStart) && goLeft == GoesLeft(c, partStart)
    requires next == if goLeft then node.left else node.right
    ensures node.Split? && goLeft == (partStart < c.start + node.left.Size())
    ensures d == Cursor(c.start + (if goLeft then 0 else node.left.Size()), next.Size(), Child(c.ident, goLeft))
    ensures next == ShapeOf(d.size, IsLeft(d.ident)) && d.size < c.size
  {
    Halves(node, c.size, IsLeft(c.ident), LeftSize(c.size, IsLeft(c.ident)));
  }

  /** One step of the loop. */
  lemma {:induction false} StepDown(c: Cursor, d: Cursor, partStart: nat, partSize: nat, node: Shape, next: Shape, goLeft: bool)
    requires OnPath(c, partStart, partSize, node) && !AtPart(node) && c.size > PARTSIZE
    requires d == Down(c, partStart) && goLeft == GoesLeft(c, partStart)
    requires next == if goLeft then node.left else node.right
    ensures OnPath(d, partStart, partSize, next) && d.size < c.size
    ensures PartIdent(node, partStart - c.start, c.ident) == PartIdent(next, partStart - d.start, d.ident)
    ensures Chain(node, partStart - c.start, c.ident)
            == [Turn(goLeft, Child(c.ident, !goLeft))] + Chain(next, partStart - d.start, d.ident)
  {
    StepInSizes(c, d, partStart, node, next, goLeft);
    StepInTree(node, next, c.start, d.start, c.ident, partStart, partSize, goLeft);
  }

  /** `aich_part_path_ident`: the walk over sizes alone. */
  method PartPathIdent(partIndex: int, fileSize: nat) returns (r: Result<(nat, nat, bool), Error>)
    ensures partIndex < 0 || partIndex * PARTSIZE >= fileSize ==> r == Failure(AichError)
    ensures 0 <= partIndex && partIndex * PARTSIZE < fileSize ==>
              var partStart, s := partIndex * PARTSIZE, ShapeOf(fileSize, true);
              var ident := PartIdent(s, partStart, 1);
              r == Success((ident, PartSize(fileSize, partStart), IsLeft(ident)))
  {
    var partStart := partIndex * PARTSIZE;
    if partStart < 0 || partStart >= fileSize {
      return Failure(AichError);
    }
    var partSize := Min(PARTSIZE, fileSize - partStart);
    var ident := WalkToPart(partStart, partSize, fileSize);
    return Success((ident, partSize, IsLeft(ident)));
  }

  method WalkToPart(partStart: nat, partSize: nat, fileSize: nat) returns (ident: nat)
    requires StartsPart(fileSize, partStart) && partSize == PartSize(fileSize, partStart)
    ensures ident == PartIdent(ShapeOf(fileSize, true), partStart, 1)
  {
    var c := Cursor(0, fileSize, 1);
    ghost var node := ShapeOf(fileSize, true);
    ghost var partIdent := PartIdent(node, partStart, 1);
    FileReached(node, fileSize, partStart, 1);
    while !Arrived(c, partStart, partSize)
      invariant OnPath(c, partStart, partSize, node)
      invariant PartIdent(node, partStart - c.start, c.ident) == partIdent
      decreases c.size
    {
      ArrivesAtPart(c, partStart, partSize, node);
      var goLeft, d := GoesLeft(c, partStart), Down(c, partStart);
      ghost var next := if goLeft then node.left else node.right;
      StepDown(c, d, partStart, partSize, node, next, goLeft);
      c, node := d, next;
    }
    ArrivesAtPart(c, partStart, partSize, node);
    ident := c.ident;
  }

  // ----- the leaves of a part -----

  /** `aich_subtree_leaf_idents`, on block counts. Entering a node shifts the
      node's own branch bit in, so the part's bit is shifted in a second time. */
  function LeafIdents(parent: nat, count: nat, isLeft: bool, unused: int := ANY): seq<nat>
    requires count > 0
    decreases count, unused
  {
    var ident := Child(parent, isLeft);
    if count == 1 then [ident]
    else
      var left := LeftBlocks(count, isLeft);
      LeafIdents(ident, left, true, unused) + LeafIdents(ident, count - left, false, unused)
  }

  /** The idents the responder emits below a node, walking the tree itself. */
  function EmitIdents(s: Shape, parent: nat, isLeft: bool): seq<nat> {
    var ident := Child(parent, isLeft);
    match s
    case Block(_) => [ident]
    case Split(l, r) => EmitIdents(l, ident, true) + EmitIdents(r, ident, false)
  }

  lemma {:induction false} HalvesInBlocks(size: nat, isLeft: bool)
    requires BLOCKSIZE < size <= PARTSIZE
    ensures var m, count := LeftSize(size, isLeft), CeilDiv(size, BLOCKSIZE);
            && CeilDiv(m, BLOCKSIZE) == LeftBlocks(count, isLeft)
            && CeilDiv(size - m, BLOCKSIZE) == count - LeftBlocks(count, isLeft)
  {
  }

  /** Block counts of the two halves. */
  lemma {:induction false} HalvesCounted(s: Shape, size: nat, isLeft: bool, count: nat, left: nat)
    requires s == ShapeOf(size, isLeft) && BLOCKSIZE < size <= PARTSIZE
    requires count == CeilDiv(size, BLOCKSIZE) && left == LeftBlocks(count, isLeft)
    ensures s.Split? && count > 1 && 0 < left < count
    ensures s.left == ShapeOf(s.left.Size(), true) && 0 < s.left.Size() <= PARTSIZE
    ensures s.right == ShapeOf(s.right.Size(), false) && 0 < s.right.Size() <= PARTSIZE
    ensures CeilDiv(s.left.Size(), BLOCKSIZE) == left && CeilDiv(s.right.Size(), BLOCKSIZE) == count - left
  {
    HalvesInBlocks(size, isLeft);
    Halves(s, size, isLeft, LeftSize(size, isLeft));
  }

  lemma {:induction false} SplitIdents(l: Shape, r: Shape, parent: nat, isLeft: bool, count: nat, left: nat)
    requires count > 1 && left == LeftBlocks(count, isLeft)
    ensures 0 < left < count
    ensures LeafIdents(parent, count, isLeft)
            == LeafIdents(Child(parent, isLeft), left, true) + LeafIdents(Child(parent, isLeft), count - left, false)
    ensures EmitIdents(Split(l, r), parent, isLeft)
            == EmitIdents(l, Child(parent, isLeft), true) + EmitIdents(r, Child(parent, isLeft), false)
  {
  }

  lemma {:induction false} OneIdent(size: nat, parent: nat, isLeft: bool, count: nat)
    requires 0 < size <= BLOCKSIZE && count == CeilDiv(size, BLOCKSIZE)
    ensures count == 1 && EmitIdents(Block(size), parent, isLeft) == LeafIdents(parent, count, isLeft)
  {
  }

  lemma {:induction false} JoinIdents(l: Shape, r: Shape, parent: nat, isLeft: bool, count: nat, left: nat,
                                      lower: seq<nat>, upper: seq<nat>)
    requires count > 1 && left == LeftBlocks(count, isLeft)
    requires 0 < left < count
    requires lower == LeafIdents(Child(parent, isLeft), left, true) == EmitIdents(l, Child(parent, isLeft), true)
    requires upper == LeafIdents(Child(parent, isLeft), count - left, false) == EmitIdents(r, Child(parent, isLeft), false)
    requires |lower| == l.LeafCount() && |upper| == r.LeafCount()
    ensures EmitIdents(Split(l, r), parent, isLeft) == LeafIdents(parent, count, isLeft)
    ensures |EmitIdents(Split(l, r), parent, isLeft)| == Split(l, r).LeafCount()
  {
    SplitIdents(l, r, parent, isLeft, count, left);
  }

  lemma {:induction false} CountedIdents(s: Shape, size: nat, parent: nat, isLeft: bool, count: nat)
    requires s == ShapeOf(size, isLeft) && 0 < size <= PARTSIZE && count == CeilDiv(size, BLOCKSIZE)
    ensures count > 0
    ensures EmitIdents(s, parent, isLeft) == LeafIdents(parent, count, isLeft)
    ensures |EmitIdents(s, parent, isLeft)| == s.LeafCount()
    decreases s
  {
    if size > BLOCKSIZE {
      var left, ident := LeftBlocks(count, isLeft), Child(parent, isLeft);
      HalvesCounted(s, size, isLeft, count, left);
      var l, r := s.left, s.right;
      CountedIdents(l, l.Size(), ident, true, left);
      CountedIdents(r, r.Size(), ident, false, count - left);
      JoinIdents(l, r, parent, isLeft, count, left, EmitIdents(l, ident, true), EmitIdents(r, ident, false));
    } else {
      OneIdent(size, parent, isLeft, count);
    }
  }

  /** Counting blocks and walking the tree number the leaves alike. */
  lemma {:induction false} LeafIdentsAgree(s: Shape, size: nat, parent: nat, isLeft: bool)
    requires s == ShapeOf(size, isLeft) && 0 < size <= PARTSIZE
    ensures EmitIdents(s, parent, isLeft) == LeafIdents(parent, CeilDiv(size, BLOCKSIZE), isLeft)
    ensures |EmitIdents(s, parent, isLeft)| == s.LeafCount()
  {
    CountedIdents(s, size, parent, isLeft, CeilDiv(size, BLOCKSIZE));
  }

  // ----- idents tell nodes apart -----

  ghost predicate Distinct(xs: seq<nat>) {
    forall i, j :: 0 <= i < j < |xs| ==> xs[i] != xs[j]
  }

  lemma {:induction false} DistinctHead(x: nat, rest: seq<nat>)
    requires Distinct([x] + rest)
    ensures x !in rest && Distinct(rest)
  {
    var xs := [x] + rest;
    assert forall i :: 0 <= i < |rest| ==> xs[i + 1] == rest[i] && xs[0] != xs[i + 1];
  }

  /** x names y, or an ancestor of y. */
  ghost predicate Names(x: nat, y: nat) {
    x == y || (x < y && Names(x, y / 2))
  }

  lemma {:induction false} NamesTransitive(x: nat, y: nat, z: nat)
    requires Names(x, y) && Names(y, z)
    ensures Names(x, z)
    decreases z
  {
    if y != z {
      NamesTransitive(x, y, z / 2);
    }
  }

  /** Siblings have no common descendants. */
  lemma {:induction false} NamesOneSide(a: nat, b: nat, y: nat)
    requires 0 < a < b < 2 * a && Names(a, y) && Names(b, y)
    ensures false
    decreases y
  {
    if a != y && b != y {
      NamesOneSide(a, b, y / 2);
    }
  }

  lemma {:induction false} EmitIdentsBelow(s: Shape, parent: nat, isLeft: bool)
    requires parent > 0
    ensures forall i :: 0 <= i < |EmitIdents(s, parent, isLeft)| ==>
              Names(Child(parent, isLeft), EmitIdents(s, parent, isLeft)[i])
    decreases s
  {
    if s.Split? {
      var ident := Child(parent, isLeft);
      var lower, upper := EmitIdents(s.left, ident, true), EmitIdents(s.right, ident, false);
      EmitIdentsBelow(s.left, ident, true);
      EmitIdentsBelow(s.right, ident, false);
      forall i | 0 <= i < |lower + upper|
        ensures Names(ident, (lower + upper)[i])
      {
        if i < |lower| {
          NamesTransitive(ident, Child(ident, true), lower[i]);
        } else {
          NamesTransitive(ident, Child(ident, false), upper[i - |lower|]);
        }
      }
    }
  }

  lemma {:induction false} EmitIdentsDistinct(s: Shape, parent: nat, isLeft: bool)
    requires parent > 0
    ensures Distinct(EmitIdents(s, parent, isLeft))
    decreases s
  {
    if s.Split? {
      var ident := Child(parent, isLeft);
      var lower, upper := EmitIdents(s.left, ident, true), EmitIdents(s.right, ident, false);
      EmitIdentsDistinct(s.left, ident, true);
      EmitIdentsDistinct(s.right, ident, false);
      EmitIdentsBelow(s.left, ident, true);
      EmitIdentsBelow(s.right, ident, false);
      forall i, j | 0 <= i < |lower| && 0 <= j < |upper|
        ensures lower[i] != upper[j]
      {
        if lower[i] == upper[j] {
          NamesOneSide(Child(ident, false), Child(ident, true), lower[i]);
        }
      }
    }
  }

  lemma {:induction false} NamesIsBelow(x: nat, y: nat)
    requires Names(x, y)
    ensures x <= y
  {
  }

  /** Idents on the way from a node down to the part, both ends included. */
  function PathIdents(s: Shape, at: nat, ident: nat): seq<nat>
    requires at < s.Size()
    decreases s
  {
    if AtPart(s) then [ident]
    else if at < s.left.Size() then [ident] + PathIdents(s.left, at, Child(ident, true))
    else [ident] + PathIdents(s.right, at - s.left.Size(), Child(ident, false))
  }

  function SiblingIdents(chain: seq<Turn>): seq<nat> {
    if chain == [] then [] else [chain[0].sibling] + SiblingIdents(chain[1..])
  }

  /** Siblings lie strictly between the idents of the walk's two ends, and no
      node on the walk is a sibling of it. */
  lemma {:induction false} WalkIdents(s: Shape, at: nat, ident: nat)
    requires at < s.Size() && ident > 0
    ensures var siblings, path, part :=
              SiblingIdents(Chain(s, at, ident)), PathIdents(s, at, ident), PartIdent(s, at, ident);
            && ident <= part && part in path
            && (forall x :: x in siblings ==> 2 * ident <= x < 2 * part)
            && (forall x :: x in path ==> (x == ident || 2 * ident <= x) && x <= part && x !in siblings)
    decreases s
  {
    if !AtPart(s) {
      var goLeft := at < s.left.Size();
      WalkStep(s, at, ident);
      if goLeft {
        WalkIdents(s.left, at, Child(ident, true));
      } else {
        WalkIdents(s.right, at - s.left.Size(), Child(ident, false));
      }
    }
  }

  lemma {:induction false} WalkStep(s: Shape, at: nat, ident: nat)
    requires at < s.Size() && !AtPart(s)
    ensures var goLeft := at < s.left.Size();
            var child, next, offset := Child(ident, goLeft), if goLeft then s.left else s.right,
                                       if goLeft then at else at - s.left.Size();
            && SiblingIdents(Chain(s, at, ident))
               == [Child(ident, !goLeft)] + SiblingIdents(Chain(next, offset, child))
            && PathIdents(s, at, ident) == [ident] + PathIdents(next, offset, child)
            && PartIdent(s, at, ident) == PartIdent(next, offset, child)
  {
    assert Chain(s, at, ident) == [Chain(s, at, ident)[0]] + Chain(s, at, ident)[1..];
  }

  lemma {:induction false} SiblingsDistinct(s: Shape, at: nat, ident: nat)
    requires at < s.Size() && ident > 0
    ensures Distinct(SiblingIdents(Chain(s, at, ident)))
    decreases s
  {
    if !AtPart(s) {
      var goLeft := at < s.left.Size();
      var child, next, offset := Child(ident, goLeft), if goLeft then s.left else s.right,
                                 if goLeft then at else at - s.left.Size();
      WalkStep(s, at, ident);
      WalkIdents(next, offset, child);
      SiblingsDistinct(next, offset, child);
      var rest := SiblingIdents(Chain(next, offset, child));
      assert forall i :: 0 <= i < |rest| ==> rest[i] in rest;
    }
  }

  // ----- how long idents get -----

  function Pow2(d: nat): (p: nat)
    ensures p > 0
  {
    if d == 0 then 1 else 2 * Pow2(d - 1)
  }

  lemma {:induction false} HalvesInParts(size: nat, isLeft: bool, half: nat)
    requires PARTSIZE < size <= PARTSIZE * (2 * half)
    ensures LeftSize(size, isLeft) <= PARTSIZE * half
    ensures size - LeftSize(size, isLeft) <= PARTSIZE * half
  {
  }

  /** Every part of s is at most d turns down. */
  ghost predicate Shallow(s: Shape, d: nat) {
    AtPart(s) || (d > 0 && Shallow(s.left, d - 1) && Shallow(s.right, d - 1))
  }

  /** Bytes of 2^d parts. */
  function PartsBytes(d: nat): nat {
    if d == 0 then PARTSIZE else 2 * PartsBytes(d - 1)
  }

  lemma {:induction false} PartsBytesIs(d: nat)
    ensures PartsBytes(d) == PARTSIZE * Pow2(d)
  {
    if d > 0 {
      PartsBytesIs(d - 1);
    }
  }

  lemma {:induction false} HalvesAreShallower(s: Shape, size: nat, isLeft: bool, d: nat) returns (l: Shape, r: Shape, m: nat)
    requires s == ShapeOf(size, isLeft) && PARTSIZE < size <= PartsBytes(d)
    ensures d > 0 && m <= size && s == Split(l, r)
    ensures l == ShapeOf(m, true) && m <= PartsBytes(d - 1)
    ensures r == ShapeOf(size - m, false) && size - m <= PartsBytes(d - 1)
  {
    PartsBytesIs(d - 1);
    HalvesInParts(size, isLeft, Pow2(d - 1));
    m := LeftSize(size, isLeft);
    ShapeSplits(size, isLeft, m, s);
    l, r := s.left, s.right;
  }

  lemma {:induction false} ShallowJoin(s: Shape, d: nat)
    requires s.Split? && d > 0 && Shallow(s.left, d - 1) && Shallow(s.right, d - 1)
    ensures Shallow(s, d)
  {
  }

  lemma {:induction false} ShapeIsShallow(s: Shape, size: nat, isLeft: bool, d: nat)
    requires s == ShapeOf(size, isLeft) && size <= PartsBytes(d)
    ensures Shallow(s, d)
    decreases s
  {
    if size <= PARTSIZE {
      assert AtPart(s);
    } else {
      var l, r, m := HalvesAreShallower(s, size, isLeft, d);
      ShapeIsShallow(l, m, true, d - 1);
      ShapeIsShallow(r, size - m, false, d - 1);
      ShallowJoin(s, d);
    }
  }

  lemma {:induction false} ShallowChain(s: Shape, at: nat, ident: nat, d: nat)
    requires at < s.Size() && Shallow(s, d)
    ensures |Chain(s, at, ident)| <= d
    decreases s
  {
    if !AtPart(s) {
      if at < s.left.Size() {
        ShallowChain(s.left, at, Child(ident, true), d - 1);
      } else {
        ShallowChain(s.right, at - s.left.Size(), Child(ident, false), d - 1);
      }
    }
  }

  lemma {:induction false} IdentByDepth(s: Shape, at: nat, ident: nat)
    requires at < s.Size()
    ensures PartIdent(s, at, ident) < (ident + 1) * Pow2(|Chain(s, at, ident)|)
    decreases s
  {
    if AtPart(s) {
      assert Pow2(0) == 1;
    } else {
      var child := Child(ident, at < s.left.Size());
      var rest := Chain(s, at, ident)[1..];
      if at < s.left.Size() {
        IdentByDepth(s.left, at, child);
      } else {
        IdentByDepth(s.right, at - s.left.Size(), child);
      }
      Doubling(child + 1, ident + 1, Pow2(|rest|));
    }
  }

  lemma {:induction false} Pow2Monotone(a: nat, b: nat)
    requires a <= b
    ensures Pow2(a) <= Pow2(b)
    decreases b
  {
    if a < b {
      Pow2Monotone(a, b - 1);
    }
  }

  lemma {:induction false} Doubling(a: nat, b: nat, p: nat)
    requires a <= 2 * b
    ensures a * p <= b * (2 * p)
  {
    assert b * (2 * p) == (2 * b) * p;
    assert (2 * b - a) * p >= 0;
  }

  lemma {:induction false} TimesAtLeast(a: nat, p: nat)
    requires p > 0
    ensures a <= a * p
  {
    assert a * p == a + a * (p - 1);
  }

  lemma {:induction false} LeafDepth(parent: nat, count: nat, isLeft: bool, e: nat)
    requires 0 < count <= Pow2(e)
    ensures forall x :: x in LeafIdents(parent, count, isLeft) ==> x < (Child(parent, isLeft) + 1) * Pow2(e)
    decreases count, 1
  {
    if count == 1 {
      TimesAtLeast(Child(parent, isLeft) + 1, Pow2(e));
    } else {
      LeafDepthSplit(parent, count, isLeft, e);
    }
  }

  lemma {:induction false} LeafDepthSplit(parent: nat, count: nat, isLeft: bool, e: nat)
    requires 1 < count <= Pow2(e)
    ensures forall x :: x in LeafIdents(parent, count, isLeft) ==> x < (Child(parent, isLeft) + 1) * Pow2(e)
    decreases count, 0
  {
    var ident, left := Child(parent, isLeft), LeftBlocks(count, isLeft);
    LeafDepth(ident, left, true, e - 1);
    LeafDepth(ident, count - left, false, e - 1);
    Doubling(Child(ident, true) + 1, ident + 1, Pow2(e - 1));
    Doubling(Child(ident, false) + 1, ident + 1, Pow2(e - 1));
  }

  function PartLeafIdents(size: nat, at: nat): seq<nat>
    requires StartsPart(size, at)
  {
    var part := PartIdent(ShapeOf(size, true), at, 1);
    LeafIdents(part, CeilDiv(PartSize(size, at), BLOCKSIZE), IsLeft(part))
  }

  /** What the path identifiers promise, for every file and part: counting and
      walking number the leaves alike, leaf idents are pairwise distinct and
      differ from all sibling and path idents, and so are the siblings. */
  lemma {:induction false} PathIdentifiers(size: nat, at: nat)
    requires StartsPart(size, at)
    ensures var s, leaves := ShapeOf(size, true), PartLeafIdents(size, at);
            var part := PartIdent(s, at, 1);
            var siblings, path := SiblingIdents(Chain(s, at, 1)), PathIdents(s, at, 1);
            && leaves == EmitIdents(PartShape(s, at), part, IsLeft(part))
            && Distinct(leaves) && Distinct(siblings)
            && (forall x :: x in leaves ==> 2 * part <= x)
            && (forall x :: x in siblings ==> x < 2 * part && x !in path)
            && (forall x :: x in path ==> x <= part)
  {
    var s := ShapeOf(size, true);
    var part := PartIdent(s, at, 1);
    WalkEndsOnPart(s, size, at, 1);
    WalkIdents(s, at, 1);
    SiblingsDistinct(s, at, 1);
    LeafIdentsAgree(PartShape(s, at), PartSize(size, at), part, IsLeft(part));
    EmitIdentsDistinct(PartShape(s, at), part, IsLeft(part));
    LeavesAbovePart(PartShape(s, at), part, IsLeft(part));
  }

  /** Below a part, every ident starts with the bits of the part and, once more, with
      the last one of them. */
  lemma {:induction false} LeavesRepeatBit(size: nat, at: nat, part: nat)
    requires StartsPart(size, at) && part == PartIdent(ShapeOf(size, true), at, 1)
    ensures forall x :: x in PartLeafIdents(size, at) ==> Names(2 * part + part % 2, x)
  {
    var shape := PartShape(ShapeOf(size, true), at);
    PathIdentifiers(size, at);
    WalkIdents(ShapeOf(size, true), at, 1);
    EmitIdentsBelow(shape, part, IsLeft(part));
  }

  lemma {:induction false} PartBlocksFit(size: nat, at: nat)
    requires StartsPart(size, at)
    ensures 0 < CeilDiv(PartSize(size, at), BLOCKSIZE) <= BLOCKS_PER_PART
  {
  }

  lemma {:induction false} LeavesFit(size: nat, at: nat)
    requires StartsPart(size, at) && PartIdent(ShapeOf(size, true), at, 1) < 512
    ensures forall x :: x in PartLeafIdents(size, at) ==> x <= 0xFFFF
  {
    var part := PartIdent(ShapeOf(size, true), at, 1);
    var count := CeilDiv(PartSize(size, at), BLOCKSIZE);
    PartBlocksFit(size, at);
    PowersOfTwo(0);
    LeafDepth(part, count, IsLeft(part), 6);
  }

  lemma {:induction false} PathFits(s: Shape, at: nat)
    requires at < s.Size() && |Chain(s, at, 1)| <= 8
    ensures PartIdent(s, at, 1) < 512
  {
    IdentByDepth(s, at, 1);
    Pow2Monotone(|Chain(s, at, 1)|, 8);
    PowersOfTwo(8);
  }

  /** A part of a file of at most 2^d parts is at most d turns from the root,
      and up to 256 parts every ident fits 16 bits. */
  lemma {:induction false} IdentWidth(size: nat, at: nat, d: nat)
    requires StartsPart(size, at) && CeilDiv(size, PARTSIZE) <= Pow2(d)
    ensures var chain := Chain(ShapeOf(size, true), at, 1);
            && |chain| <= d
            && (d <= 8 ==> forall x :: x in SiblingIdents(chain) + PartLeafIdents(size, at) ==> x <= 0xFFFF)
  {
    PartsBytesIs(d);
    ShapeIsShallow(ShapeOf(size, true), size, true, d);
    ShallowChain(ShapeOf(size, true), at, 1, d);
    if d <= 8 {
      PathFits(ShapeOf(size, true), at);
      LeavesFit(size, at);
      WalkIdents(ShapeOf(size, true), at, 1);
    }
  }

  lemma {:induction false} PowersOfTwo(d: nat)
    requires d <= 8
    ensures Pow2(6) == 64 && Pow2(d) <= 256
  {
    assert Pow2(1) == 2 && Pow2(2) == 4 && Pow2(3) == 8 && Pow2(4) == 16;
    assert Pow2(5) == 32 && Pow2(6) == 64 && Pow2(7) == 128 && Pow2(8) == 256;
  }

  lemma {:induction false} LeavesAbovePart(s: Shape, part: nat, isLeft: bool)
    requires part > 0
    ensures forall x :: x in EmitIdents(s, part, isLeft) ==> 2 * part <= x
  {
    EmitIdentsBelow(s, part, isLeft);
    forall x | x in EmitIdents(s, part, isLeft)
      ensures 2 * part <= x
    {
      NamesIsBelow(Child(part, isLeft), x);
    }
  }
}
