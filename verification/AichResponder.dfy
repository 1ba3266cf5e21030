/** The responder for hash results of any origin: it never sends what the consumer
    would reject. */
module AichResponder {
  import opened Base
  import opened AichTree
  import opened AichNodes
  import opened AichPath
  import opened AichRecovery
  import opened AichVerify
  import opened AichTheorems

  /** A tree of the given shape whose inner hashes are those of their halves; where
      its leaf hashes come from does not matter. */
  ghost predicate Grown(h: Hash, t: Node, start: nat, s: Shape, isLeft: bool)
    decreases s
  {
    && t.start == start && t.size == s.Size() && t.isLeft == isLeft
    && match s
       case Block(_) => t.Leaf?
       case Split(l, r) =>
         && t.Branch? && t.hash == HashPair(h, t.left.hash, t.right.hash)
         && Grown(h, t.left, start, l, true) && Grown(h, t.right, start + l.Size(), r, false)
  }

  lemma {:induction false} BuiltIsGrown(h: Hash, leaves: seq<bytes>, start: nat, s: Shape, isLeft: bool, t: Node)
    requires BuildTree(h, leaves, start, s, isLeft) == Success(t)
    ensures Grown(h, t, start, s, isLeft)
    decreases s
  {
    match s
    case Block(_) =>
    case Split(l, r) =>
      var lower, upper := Slice(leaves, 0, Taken(l)), Slice(leaves, Taken(l), |leaves|);
      BuiltIsGrown(h, lower, start, l, true, t.left);
      BuiltIsGrown(h, upper, start + l.Size(), r, false, t.right);
  }

  lemma {:induction false} BuiltDigests(h: Hash, leaves: seq<bytes>, start: nat, s: Shape, isLeft: bool, t: Node)
    requires BuildTree(h, leaves, start, s, isLeft) == Success(t) && forall x :: x in leaves ==> |x| == 20
    ensures Digests(t)
    decreases s
  {
    match s
    case Block(_) =>
    case Split(l, r) =>
      var lower, upper := Slice(leaves, 0, Taken(l)), Slice(leaves, Taken(l), |leaves|);
      BuiltDigests(h, lower, start, l, true, t.left);
      BuiltDigests(h, upper, start + l.Size(), r, false, t.right);
  }

  /** Every leaf hash has 20 bytes. */
  ghost predicate Digests(t: Node) {
    match t
    case Leaf(_, _, _, hash) => |hash| == 20
    case Branch(_, _, _, _, l, r) => Digests(l) && Digests(r)
  }

  lemma {:induction false} DigestLeaves(t: Node)
    requires Digests(t)
    ensures forall x :: x in NodeLeaves(t) ==> |x| == 20
  {
    if t.Branch? {
      DigestLeaves(t.left);
      DigestLeaves(t.right);
    }
  }

  /** Leaf hashes, left to right. */
  function NodeLeaves(t: Node): seq<bytes> {
    match t
    case Leaf(_, _, _, hash) => [hash]
    case Branch(_, _, _, _, l, r) => NodeLeaves(l) + NodeLeaves(r)
  }

  // ----- the walk -----

  function NodeSiblings(t: Node, s: Shape, at: nat, ident: nat): seq<Entry>
    requires at < s.Size()
    decreases s
  {
    if AtPart(s) || t.Leaf? then []
    else if at < s.left.Size() then
      [Entry(Child(ident, false), t.right.hash)] + NodeSiblings(t.left, s.left, at, Child(ident, true))
    else
      [Entry(Child(ident, true), t.left.hash)] + NodeSiblings(t.right, s.right, at - s.left.Size(), Child(ident, false))
  }

  function NodePart(t: Node, s: Shape, at: nat): Node
    requires at < s.Size()
    decreases s
  {
    if AtPart(s) || t.Leaf? then t
    else if at < s.left.Size() then NodePart(t.left, s.left, at)
    else NodePart(t.right, s.right, at - s.left.Size())
  }

  lemma {:induction false} WalkCollects(h: Hash, t: Node, start: nat, s: Shape, ident: nat, partStart: nat, partSize: nat,
                                        collected: seq<Entry>)
    requires Reaches(s, start, partStart, partSize) && Grown(h, t, start, s, IsLeft(ident))
    ensures var at := partStart - start;
            && NodeWalk(t, ident, partStart, partSize, collected)
               == Success((collected + NodeSiblings(t, s, at, ident), NodePart(t, s, at), PartIdent(s, at, ident)))
            && Grown(h, NodePart(t, s, at), partStart, PartShape(s, at), IsLeft(PartIdent(s, at, ident)))
    decreases s
  {
    var at := partStart - start;
    if AtPart(s) {
      assert collected + [] == collected;
    } else if at < s.left.Size() {
      var entry := Entry(Child(ident, false), t.right.hash);
      WalkCollects(h, t.left, start, s.left, Child(ident, true), partStart, partSize, collected + [entry]);
      ConcatAssoc(collected, [entry], NodeSiblings(t.left, s.left, at, Child(ident, true)));
    } else {
      var entry := Entry(Child(ident, true), t.left.hash);
      WalkCollects(h, t.right, start + s.left.Size(), s.right, Child(ident, false), partStart, partSize, collected + [entry]);
      ConcatAssoc(collected, [entry], NodeSiblings(t.right, s.right, at - s.left.Size(), Child(ident, false)));
    }
  }

  lemma {:induction false} NodeSiblingIdents(h: Hash, t: Node, start: nat, s: Shape, at: nat, ident: nat)
    requires Grown(h, t, start, s, IsLeft(ident)) && at < s.Size() && Digests(t)
    ensures Idents(NodeSiblings(t, s, at, ident)) == SiblingIdents(Chain(s, at, ident))
    ensures forall e :: e in NodeSiblings(t, s, at, ident) ==> |e.hash| == 20
    decreases s
  {
    if !AtPart(s) {
      if at < s.left.Size() {
        NodeSiblingIdents(h, t.left, start, s.left, at, Child(ident, true));
      } else {
        NodeSiblingIdents(h, t.right, start + s.left.Size(), s.right, at - s.left.Size(), Child(ident, false));
      }
    }
  }

  // ----- the part -----

  lemma {:induction false} NodeLeafEntries(h: Hash, t: Node, start: nat, s: Shape, isLeft: bool, parent: nat)
    requires Grown(h, t, start, s, isLeft)
    ensures |EmitIdents(s, parent, isLeft)| == |NodeLeaves(t)|
    ensures LeafEntries(t, parent) == ZipEntries(EmitIdents(s, parent, isLeft), NodeLeaves(t))
    decreases s
  {
    if s.Split? {
      var ident := Child(parent, isLeft);
      NodeLeafEntries(h, t.left, start, s.left, true, ident);
      NodeLeafEntries(h, t.right, start + s.left.Size(), s.right, false, ident);
      ZipConcat(EmitIdents(s.left, ident, true), EmitIdents(s.right, ident, false), NodeLeaves(t.left), NodeLeaves(t.right));
    }
  }

  /** From its leaves, a part rebuilds to itself. */
  lemma {:induction false} RebuildsItself(h: Hash, t: Node, start: nat, s: Shape, isLeft: bool, leaves: seq<bytes>)
    requires Grown(h, t, start, s, isLeft) && Counted(s, true) && leaves == NodeLeaves(t)
    ensures |leaves| == s.LeafCount() && BuildTree(h, leaves, start, s, isLeft) == Success(t)
    decreases s
  {
    match s
    case Block(_) =>
    case Split(l, r) =>
      var lower, upper := NodeLeaves(t.left), NodeLeaves(t.right);
      RebuildsItself(h, t.left, start, l, true, lower);
      RebuildsItself(h, t.right, start + l.Size(), r, false, upper);
      CutConcat(lower, upper, leaves, Taken(l));
      JoinsItself(h, t, start, l, r, isLeft, leaves);
  }

  lemma {:induction false} JoinsItself(h: Hash, t: Node, start: nat, l: Shape, r: Shape, isLeft: bool, leaves: seq<bytes>)
    requires Grown(h, t, start, Split(l, r), isLeft)
    requires BuildTree(h, Slice(leaves, 0, Taken(l)), start, l, true) == Success(t.left)
    requires BuildTree(h, Slice(leaves, Taken(l), |leaves|), start + l.Size(), r, false) == Success(t.right)
    ensures BuildTree(h, leaves, start, Split(l, r), isLeft) == Success(t)
  {
  }

  lemma {:induction false} FoldsUp(h: Hash, entries: Entries, t: Node, start: nat, s: Shape, at: nat, ident: nat)
    requires Grown(h, t, start, s, IsLeft(ident)) && at < s.Size()
    requires Carries(entries, NodeSiblings(t, s, at, ident))
    ensures FoldUp(h, entries, Chain(s, at, ident), NodePart(t, s, at).hash) == Success(t.hash)
    decreases s
  {
    if !AtPart(s) {
      var list, goLeft := NodeSiblings(t, s, at, ident), at < s.left.Size();
      CarriesParts(entries, [list[0]], list[1..]);
      assert list == [list[0]] + list[1..] && [list[0]][0] == list[0];
      var turn := Turn(goLeft, Child(ident, !goLeft));
      if goLeft {
        FoldsUp(h, entries, t.left, start, s.left, at, Child(ident, true));
        FoldStep(h, entries, turn, Chain(s.left, at, Child(ident, true)), NodePart(t, s, at).hash, t.left.hash);
      } else {
        FoldsUp(h, entries, t.right, start + s.left.Size(), s.right, at - s.left.Size(), Child(ident, false));
        FoldStep(h, entries, turn, Chain(s.right, at - s.left.Size(), Child(ident, false)), NodePart(t, s, at).hash, t.right.hash);
      }
    }
  }

  // ----- what is sent -----

  /** The entries sent from a tree for the part at `at`. */
  function SentEntries(t: Node, size: nat, at: nat): seq<Entry>
    requires StartsPart(size, at)
  {
    var s := ShapeOf(size, true);
    NodeSiblings(t, s, at, 1) + LeafEntries(NodePart(t, s, at), PartIdent(s, at, 1))
  }

  /** The consumer accepts the entries of a tree against the hash of its root, and
      gets the leaves of its part node. */
  lemma {:induction false} SentEntriesVerify(h: Hash, t: Node, size: nat, at: nat, entries: Entries)
    requires StartsPart(size, at) && Grown(h, t, 0, ShapeOf(size, true), true)
    requires Carries(entries, SentEntries(t, size, at))
    ensures VerifyEntries(h, entries, at, size, t.hash) == Success(NodeLeaves(NodePart(t, ShapeOf(size, true), at)))
  {
    var s, part := ShapeOf(size, true), PartIdent(ShapeOf(size, true), at, 1);
    var node := NodePart(t, s, at);
    SentParts(h, t, size, at, node);
    CarriesParts(entries, NodeSiblings(t, s, at, 1), LeafEntries(node, part));
    LookupZip(entries, PartLeafIdents(size, at), NodeLeaves(node));
    ShapeCounted(PartSize(size, at), IsLeft(part), true);
    RebuildsItself(h, node, at, PartNodeShape(size, at), IsLeft(part), NodeLeaves(node));
    FoldsUp(h, entries, t, 0, s, at, 1);
    Accepted(h, entries, at, size, part, NodeLeaves(node), node, t.hash);
  }

  lemma {:induction false} Accepted(h: Hash, entries: Entries, at: nat, size: nat, part: nat, leaves: seq<bytes>, node: Node,
                                    master: bytes)
    requires StartsPart(size, at) && part == PartIdent(ShapeOf(size, true), at, 1)
    requires Lookup(entries, PartLeafIdents(size, at)) == Success(leaves)
    requires BuildTree(h, leaves, at, PartNodeShape(size, at), IsLeft(part)) == Success(node)
    requires FoldUp(h, entries, Chain(ShapeOf(size, true), at, 1), node.hash) == Success(master)
    ensures VerifyEntries(h, entries, at, size, master) == Success(leaves)
  {
  }

  lemma {:induction false} SentParts(h: Hash, t: Node, size: nat, at: nat, node: Node)
    requires StartsPart(size, at) && Grown(h, t, 0, ShapeOf(size, true), true)
    requires node == NodePart(t, ShapeOf(size, true), at)
    ensures var s, part := ShapeOf(size, true), PartIdent(ShapeOf(size, true), at, 1);
            && NodeWalk(t, 1, at, PartSize(size, at), []) == Success((NodeSiblings(t, s, at, 1), node, part))
            && Grown(h, node, at, PartNodeShape(size, at), IsLeft(part))
            && |PartLeafIdents(size, at)| == |NodeLeaves(node)|
            && LeafEntries(node, part) == ZipEntries(PartLeafIdents(size, at), NodeLeaves(node))
  {
    var s, part := ShapeOf(size, true), PartIdent(ShapeOf(size, true), at, 1);
    PartReached(size, at);
    WalkCollects(h, t, 0, s, 1, at, PartSize(size, at), []);
    assert [] + NodeSiblings(t, s, at, 1) == NodeSiblings(t, s, at, 1);
    NodeLeafEntries(h, node, at, PartNodeShape(size, at), IsLeft(part), part);
    LeafIdentsAgree(PartNodeShape(size, at), PartSize(size, at), part, IsLeft(part));
  }

  lemma {:induction false} PartDigests(t: Node, s: Shape, at: nat)
    requires at < s.Size() && Digests(t)
    ensures Digests(NodePart(t, s, at))
    decreases s
  {
    if !AtPart(s) && t.Branch? {
      if at < s.left.Size() {
        PartDigests(t.left, s.left, at);
      } else {
        PartDigests(t.right, s.right, at - s.left.Size());
      }
    }
  }

  lemma {:induction false} SentDistinct(h: Hash, t: Node, size: nat, at: nat)
    requires StartsPart(size, at) && Grown(h, t, 0, ShapeOf(size, true), true) && Digests(t)
    ensures Distinct(Idents(SentEntries(t, size, at)))
    ensures forall e :: e in SentEntries(t, size, at) ==> |e.hash| == 20
  {
    var s, part := ShapeOf(size, true), PartIdent(ShapeOf(size, true), at, 1);
    var siblings, idents, node := NodeSiblings(t, s, at, 1), PartLeafIdents(size, at), NodePart(t, s, at);
    SentParts(h, t, size, at, node);
    PartDigests(t, s, at);
    DigestLeaves(node);
    NodeSiblingIdents(h, t, 0, s, at, 1);
    IdentsConcat(siblings, LeafEntries(node, part));
    IdentsOfZip(idents, NodeLeaves(node));
    PathIdentifiers(size, at);
    DistinctConcat(SiblingIdents(Chain(s, at, 1)), idents, 2 * part);
  }

  /** Whatever hash result the responder answers from, right or wrong, the consumer
      accepts the answer against the master of that result. */
  lemma {:induction false} AnswersVerify(h: Hash, fileSize: nat, master: bytes, blockHashes: seq<bytes>, partIndex: int, blob: bytes)
    requires RespondSpec(h, fileSize, master, blockHashes, partIndex) == Success(blob)
    requires forall x :: x in blockHashes ==> |x| == 20
    ensures VerifySpec(h, blob, partIndex, fileSize, master).Success?
  {
    var at := partIndex * PARTSIZE;
    PartStarts(partIndex, at, fileSize);
    var t := BuildTree(h, blockHashes, 0, ShapeOf(fileSize, true), true).value;
    BuiltIsGrown(h, blockHashes, 0, ShapeOf(fileSize, true), true, t);
    BuiltDigests(h, blockHashes, 0, ShapeOf(fileSize, true), true, t);
    AnswerIsSent(h, fileSize, master, blockHashes, partIndex, at, t);
    SentDistinct(h, t, fileSize, at);
    WireRoundTrip(SentEntries(t, fileSize, at), fileSize);
    MapOfDistinct(SentEntries(t, fileSize, at), map[]);
    SentEntriesVerify(h, t, fileSize, at, MapOf(SentEntries(t, fileSize, at), map[]));
  }

  lemma {:induction false} AnswerIsSent(h: Hash, fileSize: nat, master: bytes, blockHashes: seq<bytes>, partIndex: int, at: nat, t: Node)
    requires at == partIndex * PARTSIZE && StartsPart(fileSize, at)
    requires RespondSpec(h, fileSize, master, blockHashes, partIndex).Success?
    requires BuildTree(h, blockHashes, 0, ShapeOf(fileSize, true), true) == Success(t)
    requires Grown(h, t, 0, ShapeOf(fileSize, true), true)
    ensures t.hash == master
    ensures SerializeEntries(SentEntries(t, fileSize, at), fileSize) == RespondSpec(h, fileSize, master, blockHashes, partIndex)
  {
    SentParts(h, t, fileSize, at, NodePart(t, ShapeOf(fileSize, true), at));
  }
}
