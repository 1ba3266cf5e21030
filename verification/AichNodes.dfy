/** The tree rebuilt from leaf hashes (`_build_tree`), and when it is the
    streaming tree. */
module AichNodes {
  import opened Base
  import opened AichTree

  datatype Node =
    | Leaf(start: nat, size: nat, isLeft: bool, hash: bytes)
    | Branch(start: nat, size: nat, isLeft: bool, hash: bytes, left: Node, right: Node)

  /** `_build_tree`. The left half takes one leaf for each BLOCKSIZE bytes,
      counted across part boundaries; `leaves[0]` of no leaves is an IndexError. */
  function BuildTree(h: Hash, leaves: seq<bytes>, start: nat, s: Shape, isLeft: bool): (r: Result<Node, Error>)
    ensures r.Success? ==> r.value.start == start && r.value.size == s.Size() && r.value.isLeft == isLeft
    ensures r.Failure? ==> r.error == IndexError
    decreases s
  {
    match s
    case Block(n) =>
      if leaves == [] then Failure(IndexError) else Success(Leaf(start, n, isLeft, leaves[0]))
    case Split(l, r) =>
      var taken := Taken(l);
      var left :- BuildTree(h, Slice(leaves, 0, taken), start, l, true);
      var right :- BuildTree(h, Slice(leaves, taken, |leaves|), start + l.Size(), r, false);
      Success(Branch(start, s.Size(), isLeft, HashPair(h, left.hash, right.hash), left, right))
  }

  function Taken(left: Shape): nat {
    CeilDiv(left.Size(), BLOCKSIZE)
  }

  /** The tree of the streaming walk, every node with its streamed hash. */
  function TreeOf(h: Hash, data: bytes, start: nat, s: Shape, isLeft: bool): (t: Node)
    requires start + s.Size() <= |data|
    ensures t.hash == Root(h, data, start, s)
    ensures t.start == start && t.size == s.Size() && t.isLeft == isLeft
    decreases s
  {
    match s
    case Block(n) => Leaf(start, n, isLeft, Root(h, data, start, s))
    case Split(l, r) =>
      Branch(start, s.Size(), isLeft, Root(h, data, start, s),
             TreeOf(h, data, start, l, true), TreeOf(h, data, start + l.Size(), r, false))
  }

  /** No left branch is short of leaves (`exact`), or has too many (`!exact`). */
  ghost predicate Counted(s: Shape, exact: bool) {
    match s
    case Block(n) => n > 0
    case Split(l, r) =>
      && Taken(l) <= l.LeafCount()
      && (exact ==> Taken(l) == l.LeafCount())
      && Counted(l, exact) && Counted(r, exact)
  }

  /** With one leaf for each block, the rebuild succeeds. */
  lemma {:induction false} EnoughLeaves(h: Hash, leaves: seq<bytes>, start: nat, s: Shape, isLeft: bool)
    requires Counted(s, true) && |leaves| == s.LeafCount()
    ensures BuildTree(h, leaves, start, s, isLeft).Success?
    decreases s
  {
    if s.Split? {
      EnoughLeaves(h, Slice(leaves, 0, Taken(s.left)), start, s.left, true);
      EnoughLeaves(h, Slice(leaves, Taken(s.left), |leaves|), start + s.left.Size(), s.right, false);
    }
  }

  /** One leaf short anywhere, and some recursion is left with none. */
  lemma {:induction false} TooFewLeaves(h: Hash, leaves: seq<bytes>, start: nat, s: Shape, isLeft: bool)
    requires Counted(s, false) && |leaves| < s.LeafCount()
    ensures BuildTree(h, leaves, start, s, isLeft) == Failure(IndexError)
    decreases s
  {
    if s.Split? {
      var taken := Slice(leaves, 0, Taken(s.left));
      if |taken| < s.left.LeafCount() {
        TooFewLeaves(h, taken, start, s.left, true);
      } else {
        TooFewLeaves(h, Slice(leaves, Taken(s.left), |leaves|), start + s.left.Size(), s.right, false);
      }
    }
  }

  /** Cutting a full leaf list gives the lists of the halves. */
  lemma {:induction false} LeavesCut(h: Hash, data: bytes, start: nat, l: Shape, r: Shape, leaves: seq<bytes>)
    requires start + l.Size() + r.Size() <= |data| && Taken(l) == l.LeafCount()
    requires leaves == Leaves(h, data, start, Split(l, r))
    ensures Slice(leaves, 0, Taken(l)) == Leaves(h, data, start, l)
    ensures Slice(leaves, Taken(l), |leaves|) == Leaves(h, data, start + l.Size(), r)
  {
    LeafCountIsLength(h, data, start, l);
    SplitHashed(h, data, start, l, r);
    CutConcat(Leaves(h, data, start, l), Leaves(h, data, start + l.Size(), r), leaves, Taken(l));
  }

  /** Two halves rebuilt as streamed make the whole as streamed. */
  lemma {:induction false} JoinStreamed(h: Hash, data: bytes, leaves: seq<bytes>, start: nat, l: Shape, r: Shape, isLeft: bool,
                                        left: Node, right: Node)
    requires start + l.Size() + r.Size() <= |data|
    requires left == TreeOf(h, data, start, l, true) && right == TreeOf(h, data, start + l.Size(), r, false)
    requires BuildTree(h, Slice(leaves, 0, Taken(l)), start, l, true) == Success(left)
    requires BuildTree(h, Slice(leaves, Taken(l), |leaves|), start + l.Size(), r, false) == Success(right)
    ensures BuildTree(h, leaves, start, Split(l, r), isLeft) == Success(TreeOf(h, data, start, Split(l, r), isLeft))
  {
    SplitHashed(h, data, start, l, r);
  }

  /** From the streamed leaves, the rebuild gives the streaming tree itself. */
  lemma {:induction false} RebuildIsStreamed(h: Hash, data: bytes, leaves: seq<bytes>, start: nat, s: Shape, isLeft: bool)
    requires start + s.Size() <= |data| && Counted(s, true)
    requires leaves == Leaves(h, data, start, s)
    ensures BuildTree(h, leaves, start, s, isLeft) == Success(TreeOf(h, data, start, s, isLeft))
    decreases s
  {
    match s
    case Block(_) =>
    case Split(l, r) =>
      var middle, taken := start + l.Size(), Taken(l);
      LeavesCut(h, data, start, l, r, leaves);
      RebuildIsStreamed(h, data, Slice(leaves, 0, taken), start, l, true);
      RebuildIsStreamed(h, data, Slice(leaves, taken, |leaves|), middle, r, false);
      JoinStreamed(h, data, leaves, start, l, r, isLeft, TreeOf(h, data, start, l, true), TreeOf(h, data, middle, r, false));
  }

  /** Counting leaves across part boundaries never takes too many, and takes
      too few from the fifth whole part on. */
  lemma {:induction false} TakenLeaves(size: nat, isLeft: bool)
    requires size > BLOCKSIZE
    ensures var m := LeftSize(size, isLeft);
            && CeilDiv(m, BLOCKSIZE) <= BlockCount(m)
            && (size <= 8 * PARTSIZE ==> CeilDiv(m, BLOCKSIZE) == BlockCount(m))
            && (size > 8 * PARTSIZE && isLeft ==> CeilDiv(m, BLOCKSIZE) < BlockCount(m))
  {
    var m := LeftSize(size, isLeft);
    if size <= PARTSIZE {
      assert BlockCount(m) == CeilDiv(m, BLOCKSIZE);
    } else {
      var k := LeftBlocks(CeilDiv(size, PARTSIZE), isLeft);
      assert m == k * PARTSIZE;
      assert BlockCount(m) == BLOCKS_PER_PART * k;
    }
  }

  lemma {:induction false} ShapeCounted(size: nat, isLeft: bool, exact: bool)
    requires 0 < size && (exact ==> size <= 8 * PARTSIZE)
    ensures Counted(ShapeOf(size, isLeft), exact)
    decreases size
  {
    if size > BLOCKSIZE {
      var m := LeftSize(size, isLeft);
      ShapeCounted(m, true, exact);
      ShapeCounted(size - m, false, exact);
      TakenLeaves(size, isLeft);
      ShapeLeafCount(m, true);
    }
  }

  /** `materialize_aich_tree` on a hashed file: it works exactly for files of 1
      byte to 8 parts, and then its root is the streaming master. */
  lemma {:induction false} MaterializedTree(h: Hash, data: bytes)
    ensures var shape := ShapeOf(|data|, true);
            var tree := BuildTree(h, Leaves(h, data, 0, shape), 0, shape, true);
            && (tree.Success? <==> 0 < |data| <= 8 * PARTSIZE)
            && (tree.Success? ==> tree.value == TreeOf(h, data, 0, shape, true))
            && (tree.Success? ==> tree.value.hash == Root(h, data, 0, shape))
  {
    var shape := ShapeOf(|data|, true);
    if |data| > 8 * PARTSIZE {
      var m := LeftSize(|data|, true);
      TakenLeaves(|data|, true);
      ShapeLeafCount(m, true);
      ShapeCounted(m, true, false);
      var leaves: seq<bytes> := Leaves(h, data, 0, shape);
      TooFewLeaves(h, Slice(leaves, 0, Taken(shape.left)), 0, shape.left, true);
    } else if |data| > 0 {
      ShapeCounted(|data|, true, true);
      RebuildIsStreamed(h, data, Leaves(h, data, 0, shape), 0, shape, true);
    }
  }
}
