/** What responder and consumer guarantee together: the round trip for honest
    blobs, and soundness for blobs of any origin. */
module AichTheorems {
  import opened Base
  import opened AichTree
  import opened AichNodes
  import opened AichPath
  import opened AichRecovery
  import opened AichVerify

  // ----- an honest responder -----

  /** Down the streaming tree, the responder collects the streamed siblings and
      ends on the streamed part. */
  lemma {:induction false} WalkCollectsSiblings(h: Hash, data: bytes, start: nat, s: Shape, ident: nat, t: Node,
                                                partStart: nat, partSize: nat, collected: seq<Entry>)
    requires start + s.Size() <= |data| && Reaches(s, start, partStart, partSize)
    requires t == TreeOf(h, data, start, s, IsLeft(ident))
    ensures var at := partStart - start;
            var part := PartIdent(s, at, ident);
            && partStart + PartShape(s, at).Size() <= |data|
            && NodeWalk(t, ident, partStart, partSize, collected)
               == Success((collected + SiblingEntries(h, data, start, s, at, ident),
                           TreeOf(h, data, partStart, PartShape(s, at), IsLeft(part)), part))
    decreases s
  {
    if !AtPart(s) {
      var middle := start + s.left.Size();
      if partStart < middle {
        var entry := Entry(Child(ident, false), Root(h, data, middle, s.right));
        WalkCollectsSiblings(h, data, start, s.left, Child(ident, true), t.left,
                             partStart, partSize, collected + [entry]);
        StepLeft(h, data, start, s, ident, t, partStart, partSize, collected);
        ConcatAssoc(collected, [entry], SiblingEntries(h, data, start, s.left, partStart - start, Child(ident, true)));
      } else {
        var entry := Entry(Child(ident, true), Root(h, data, start, s.left));
        WalkCollectsSiblings(h, data, middle, s.right, Child(ident, false), t.right,
                             partStart, partSize, collected + [entry]);
        StepRight(h, data, start, s, ident, t, partStart, partSize, collected);
        ConcatAssoc(collected, [entry], SiblingEntries(h, data, middle, s.right, partStart - middle, Child(ident, false)));
      }
    } else {
      assert collected + [] == collected;
    }
  }

  lemma {:induction false} StepLeft(h: Hash, data: bytes, start: nat, s: Shape, ident: nat, t: Node,
                 partStart: nat, partSize: nat, collected: seq<Entry>)
    requires start + s.Size() <= |data| && !AtPart(s) && s.Size() != partSize && partStart < start + s.left.Size()
    requires t == TreeOf(h, data, start, s, IsLeft(ident))
    ensures NodeWalk(t, ident, partStart, partSize, collected)
            == NodeWalk(t.left, Child(ident, true), partStart, partSize,
                        collected + [Entry(Child(ident, false), Root(h, data, start + s.left.Size(), s.right))])
  {
  }

  lemma {:induction false} StepRight(h: Hash, data: bytes, start: nat, s: Shape, ident: nat, t: Node,
                  partStart: nat, partSize: nat, collected: seq<Entry>)
    requires start + s.Size() <= |data| && !AtPart(s) && s.Size() != partSize && partStart >= start + s.left.Size()
    requires t == TreeOf(h, data, start, s, IsLeft(ident))
    ensures NodeWalk(t, ident, partStart, partSize, collected)
            == NodeWalk(t.right, Child(ident, false), partStart, partSize,
                        collected + [Entry(Child(ident, true), Root(h, data, start, s.left))])
  {
  }

  /** The entries an honest responder has for the part at `at`. */
  function HonestEntries(h: Hash, data: bytes, at: nat): seq<Entry>
    requires StartsPart(|data|, at)
  {
    LeafCounts(h, data, at);
    SiblingEntries(h, data, 0, ShapeOf(|data|, true), at, 1)
    + ZipEntries(PartLeafIdents(|data|, at), PartLeaves(h, data, at))
  }

  /** The streamed leaves of the part's own node. */
  function PartLeaves(h: Hash, data: bytes, at: nat): seq<bytes>
    requires StartsPart(|data|, at)
  {
    Leaves(h, data, at, PartNodeShape(|data|, at))
  }

  function PartNodeShape(size: nat, at: nat): (s: Shape)
    requires StartsPart(size, at)
    ensures at + s.Size() <= size && s.Size() == PartSize(size, at)
  {
    ShapeOf(PartSize(size, at), IsLeft(PartIdent(ShapeOf(size, true), at, 1)))
  }

  lemma {:induction false} LeafCounts(h: Hash, data: bytes, at: nat)
    requires StartsPart(|data|, at)
    ensures |PartLeafIdents(|data|, at)| == |PartLeaves(h, data, at)| == BlockCount(PartSize(|data|, at))
    ensures |PartLeaves(h, data, at)| <= BLOCKS_PER_PART
  {
    var s, part := PartNodeShape(|data|, at), PartIdent(ShapeOf(|data|, true), at, 1);
    LeafIdentsAgree(s, PartSize(|data|, at), part, IsLeft(part));
    LeafCountIsLength(h, data, at, s);
    ShapeLeafCount(PartSize(|data|, at), IsLeft(part));
  }

  lemma {:induction false} SiblingEntryIdents(h: Hash, data: bytes, start: nat, s: Shape, at: nat, ident: nat)
    requires start + s.Size() <= |data| && at < s.Size()
    ensures Idents(SiblingEntries(h, data, start, s, at, ident)) == SiblingIdents(Chain(s, at, ident))
    ensures forall e :: e in SiblingEntries(h, data, start, s, at, ident) ==> |e.hash| == 20
    ensures |SiblingEntries(h, data, start, s, at, ident)| == |Chain(s, at, ident)|
    decreases s
  {
    if !AtPart(s) {
      if at < s.left.Size() {
        SiblingEntryIdents(h, data, start, s.left, at, Child(ident, true));
      } else {
        SiblingEntryIdents(h, data, start + s.left.Size(), s.right, at - s.left.Size(), Child(ident, false));
      }
    }
  }

  lemma {:induction false} IdentsConcat(a: seq<Entry>, b: seq<Entry>)
    ensures Idents(a + b) == Idents(a) + Idents(b)
  {
    if a == [] {
      assert a + b == b;
    } else {
      IdentsConcat(a[1..], b);
      assert (a + b)[1..] == a[1..] + b;
    }
  }

  lemma {:induction false} IdentsOfZip(idents: seq<nat>, hashes: seq<bytes>)
    requires |idents| == |hashes|
    ensures Idents(ZipEntries(idents, hashes)) == idents
    decreases |idents|
  {
    if idents != [] {
      IdentsOfZip(idents[1..], hashes[1..]);
      assert ZipEntries(idents, hashes)[1..] == ZipEntries(idents[1..], hashes[1..]);
    }
  }

  lemma {:induction false} LeavesAreDigests(h: Hash, data: bytes, start: nat, s: Shape)
    requires start + s.Size() <= |data|
    ensures forall x :: x in Leaves(h, data, start, s) ==> |x| == 20
  {
    LeavesHashSpans(h, data, start, s);
  }

  /** All idents of an honest blob differ, so none of its entries is lost. */
  lemma {:induction false} HonestEntriesDistinct(h: Hash, data: bytes, at: nat)
    requires StartsPart(|data|, at)
    ensures var entries := HonestEntries(h, data, at);
            && Idents(entries) == SiblingIdents(Chain(ShapeOf(|data|, true), at, 1)) + PartLeafIdents(|data|, at)
            && Distinct(Idents(entries))
            && (forall e :: e in entries ==> |e.hash| == 20)
  {
    var s := ShapeOf(|data|, true);
    var siblings, leafIdents := SiblingEntries(h, data, 0, s, at, 1), PartLeafIdents(|data|, at);
    LeafCounts(h, data, at);
    var leaves := ZipEntries(leafIdents, PartLeaves(h, data, at));
    IdentsConcat(siblings, leaves);
    IdentsOfZip(leafIdents, PartLeaves(h, data, at));
    SiblingEntryIdents(h, data, 0, s, at, 1);
    PathIdentifiers(|data|, at);
    DistinctConcat(SiblingIdents(Chain(s, at, 1)), leafIdents, 2 * PartIdent(s, at, 1));
    LeavesAreDigests(h, data, at, PartNodeShape(|data|, at));
  }

  lemma {:induction false} DistinctConcat(a: seq<nat>, b: seq<nat>, bound: nat)
    requires Distinct(a) && Distinct(b)
    requires (forall x :: x in a ==> x < bound) && (forall x :: x in b ==> bound <= x)
    ensures Distinct(a + b)
  {
    forall i, j | 0 <= i < j < |a + b|
      ensures (a + b)[i] != (a + b)[j]
    {
      if i < |a| <= j {
        assert a[i] in a && b[j - |a|] in b;
      }
    }
  }

  lemma {:induction false} IdentsCover(entries: seq<Entry>)
    ensures forall e :: e in entries ==> e.ident in Idents(entries)
  {
    if entries != [] {
      IdentsCover(entries[1..]);
    }
  }

  /** Up to 8 parts the blob always serialises. */
  lemma {:induction false} HonestEntriesFit(h: Hash, data: bytes, at: nat)
    requires StartsPart(|data|, at) && |data| <= 8 * PARTSIZE
    ensures SerializeEntries(HonestEntries(h, data, at), |data|).Success?
  {
    var entries := HonestEntries(h, data, at);
    assert Pow2(1) == 2 && Pow2(2) == 4 && Pow2(3) == 8;
    IdentWidth(|data|, at, 3);
    HonestEntriesDistinct(h, data, at);
    IdentsCover(entries);
    LeafCounts(h, data, at);
    SiblingEntryIdents(h, data, 0, ShapeOf(|data|, true), at, 1);
  }

  lemma {:induction false} HonestWalk(h: Hash, data: bytes, at: nat)
    requires StartsPart(|data|, at)
    ensures var s := ShapeOf(|data|, true);
            var part := PartIdent(s, at, 1);
            NodeWalk(TreeOf(h, data, 0, s, true), 1, at, PartSize(|data|, at), [])
            == Success((SiblingEntries(h, data, 0, s, at, 1),
                        TreeOf(h, data, at, PartNodeShape(|data|, at), IsLeft(part)), part))
  {
    var s := ShapeOf(|data|, true);
    var siblings := SiblingEntries(h, data, 0, s, at, 1);
    PartReached(|data|, at);
    WalkCollectsSiblings(h, data, 0, s, 1, TreeOf(h, data, 0, s, true), at, PartSize(|data|, at), []);
    assert [] + siblings == siblings;
  }

  lemma {:induction false} PartReached(size: nat, at: nat)
    requires StartsPart(size, at)
    ensures var s := ShapeOf(size, true);
            && Reaches(s, 0, at, PartSize(size, at))
            && PartShape(s, at) == PartNodeShape(size, at)
            && IsLeft(1)
  {
    FileReached(ShapeOf(size, true), size, at, 1);
    WalkEndsOnPart(ShapeOf(size, true), size, at, 1);
  }

  lemma {:induction false} HonestLeaves(h: Hash, data: bytes, at: nat)
    requires StartsPart(|data|, at)
    ensures var part := PartIdent(ShapeOf(|data|, true), at, 1);
            && |PartLeafIdents(|data|, at)| == |PartLeaves(h, data, at)|
            && LeafEntries(TreeOf(h, data, at, PartNodeShape(|data|, at), IsLeft(part)), part)
               == ZipEntries(PartLeafIdents(|data|, at), PartLeaves(h, data, at))
  {
    var shape, part := PartNodeShape(|data|, at), PartIdent(ShapeOf(|data|, true), at, 1);
    ShapeCounted(PartSize(|data|, at), IsLeft(part), false);
    LeafEntriesAreLeaves(h, data, at, shape, IsLeft(part), part);
    LeafIdentsAgree(shape, PartSize(|data|, at), part, IsLeft(part));
  }

  /** What an honest responder answers. */
  function Answer(h: Hash, data: bytes, partIndex: int): Result<bytes, Error> {
    var s := ShapeOf(|data|, true);
    RespondSpec(h, |data|, Root(h, data, 0, s), Leaves(h, data, 0, s), partIndex)
  }

  lemma {:induction false} HonestAnswer(h: Hash, data: bytes, partIndex: int, at: nat)
    requires at == partIndex * PARTSIZE && StartsPart(|data|, at) && BLOCKSIZE < |data| <= 8 * PARTSIZE
    ensures Answer(h, data, partIndex) == SerializeEntries(HonestEntries(h, data, at), |data|)
  {
    MaterializedTree(h, data);
    HonestWalk(h, data, at);
    HonestLeaves(h, data, at);
  }

  /** An honest responder answers exactly for files above one block and up to
      eight parts, and for parts the file has; above eight parts the rebuild of
      its own tree raises. */
  lemma {:induction false} HonestResponder(h: Hash, data: bytes, partIndex: int)
    ensures var at := partIndex * PARTSIZE;
            && (Answer(h, data, partIndex).Success? <==> BLOCKSIZE < |data| <= 8 * PARTSIZE && 0 <= at < |data|)
            && (|data| > 8 * PARTSIZE && 0 <= at < |data| ==> Answer(h, data, partIndex) == Failure(IndexError))
  {
    var at := partIndex * PARTSIZE;
    if BLOCKSIZE < |data| <= 8 * PARTSIZE && 0 <= at < |data| {
      HonestAnswer(h, data, partIndex, at);
      HonestEntriesFit(h, data, at);
    } else {
      MaterializedTree(h, data);
    }
  }

  // ----- the round trip -----

  /** One link of the chain. */
  lemma {:induction false} FoldStep(h: Hash, entries: Entries, turn: Turn, rest: seq<Turn>, partHash: bytes, inner: bytes)
    requires FoldUp(h, entries, rest, partHash) == Success(inner) && turn.sibling in entries
    ensures FoldUp(h, entries, [turn] + rest, partHash)
            == Success(Combine(h, turn.goLeft, inner, entries[turn.sibling]))
  {
    assert ([turn] + rest)[1..] == rest;
  }

  /** The top of the chain: the sibling of the step down, with its streamed hash. */
  lemma {:induction false} TopSibling(h: Hash, data: bytes, start: nat, s: Shape, at: nat, ident: nat, entries: Entries, goLeft: bool)
    requires start + s.Size() <= |data| && at < s.Size() && !AtPart(s) && goLeft == (at < s.left.Size())
    requires Carries(entries, SiblingEntries(h, data, start, s, at, ident))
    ensures var sibling := Child(ident, !goLeft);
            && sibling in entries
            && entries[sibling] == (if goLeft then Root(h, data, start + s.left.Size(), s.right) else Root(h, data, start, s.left))
    ensures goLeft ==> Carries(entries, SiblingEntries(h, data, start, s.left, at, Child(ident, true)))
    ensures !goLeft ==>
              Carries(entries, SiblingEntries(h, data, start + s.left.Size(), s.right, at - s.left.Size(), Child(ident, false)))
  {
    var list := SiblingEntries(h, data, start, s, at, ident);
    CarriesParts(entries, [list[0]], list[1..]);
    assert list == [list[0]] + list[1..];
    assert [list[0]][0] == list[0];
  }

  /** The chain of streamed siblings folds the streamed part up to the master. */
  lemma {:induction false} FoldUpSiblings(h: Hash, entries: Entries, data: bytes, start: nat, s: Shape, ident: nat,
                                          partStart: nat, partSize: nat, partHash: bytes)
    requires start + s.Size() <= |data| && Reaches(s, start, partStart, partSize)
    requires Carries(entries, SiblingEntries(h, data, start, s, partStart - start, ident))
    requires partStart + PartShape(s, partStart - start).Size() <= |data|
    requires partHash == Root(h, data, partStart, PartShape(s, partStart - start))
    ensures FoldUp(h, entries, Chain(s, partStart - start, ident), partHash) == Success(Root(h, data, start, s))
    decreases s
  {
    if !AtPart(s) {
      var at, middle := partStart - start, start + s.left.Size();
      var goLeft := at < s.left.Size();
      TopSibling(h, data, start, s, at, ident, entries, goLeft);
      var turn := Turn(goLeft, Child(ident, !goLeft));
      if goLeft {
        FoldUpSiblings(h, entries, data, start, s.left, Child(ident, true), partStart, partSize, partHash);
        FoldStep(h, entries, turn, Chain(s.left, at, Child(ident, true)), partHash, Root(h, data, start, s.left));
      } else {
        FoldUpSiblings(h, entries, data, middle, s.right, Child(ident, false), partStart, partSize, partHash);
        FoldStep(h, entries, turn, Chain(s.right, at - s.left.Size(), Child(ident, false)), partHash, Root(h, data, middle, s.right));
      }
    }
  }

  lemma {:induction false} LookupZip(entries: Entries, idents: seq<nat>, leaves: seq<bytes>)
    requires |idents| == |leaves|
    requires Carries(entries, ZipEntries(idents, leaves))
    ensures Lookup(entries, idents) == Success(leaves)
  {
    forall i | 0 <= i < |idents|
      ensures idents[i] in entries && entries[idents[i]] == leaves[i]
    {
      assert ZipEntries(idents, leaves)[i] == Entry(idents[i], leaves[i]);
    }
    assert Lookup(entries, idents).value == leaves;
  }

  lemma {:induction false} PartRebuilds(h: Hash, data: bytes, at: nat)
    requires StartsPart(|data|, at)
    ensures var part, shape := PartIdent(ShapeOf(|data|, true), at, 1), PartNodeShape(|data|, at);
            BuildTree(h, PartLeaves(h, data, at), at, shape, IsLeft(part))
            == Success(TreeOf(h, data, at, shape, IsLeft(part)))
  {
    var part := PartIdent(ShapeOf(|data|, true), at, 1);
    ShapeCounted(PartSize(|data|, at), IsLeft(part), true);
    RebuildIsStreamed(h, data, PartLeaves(h, data, at), at, PartNodeShape(|data|, at), IsLeft(part));
  }

  lemma {:induction false} PartFoldsUp(h: Hash, data: bytes, at: nat, entries: Entries)
    requires StartsPart(|data|, at)
    requires Carries(entries, SiblingEntries(h, data, 0, ShapeOf(|data|, true), at, 1))
    ensures FoldUp(h, entries, Chain(ShapeOf(|data|, true), at, 1), Root(h, data, at, PartNodeShape(|data|, at)))
            == Success(Root(h, data, 0, ShapeOf(|data|, true)))
  {
    PartReached(|data|, at);
    FoldUpSiblings(h, entries, data, 0, ShapeOf(|data|, true), 1, at, PartSize(|data|, at),
                   Root(h, data, at, PartNodeShape(|data|, at)));
  }

  lemma {:induction false} HonestParts(h: Hash, data: bytes, at: nat, entries: Entries)
    requires StartsPart(|data|, at) && Carries(entries, HonestEntries(h, data, at))
    ensures Carries(entries, SiblingEntries(h, data, 0, ShapeOf(|data|, true), at, 1))
    ensures |PartLeafIdents(|data|, at)| == |PartLeaves(h, data, at)|
    ensures Carries(entries, ZipEntries(PartLeafIdents(|data|, at), PartLeaves(h, data, at)))
  {
    LeafCounts(h, data, at);
    CarriesParts(entries, SiblingEntries(h, data, 0, ShapeOf(|data|, true), at, 1),
                 ZipEntries(PartLeafIdents(|data|, at), PartLeaves(h, data, at)));
  }

  /** The true siblings and leaves, whatever else comes with them, are accepted. */
  lemma {:induction false} HonestEntriesVerify(h: Hash, data: bytes, at: nat, entries: Entries)
    requires StartsPart(|data|, at)
    requires Carries(entries, HonestEntries(h, data, at))
    ensures VerifyEntries(h, entries, at, |data|, Root(h, data, 0, ShapeOf(|data|, true)))
            == Success(PartLeaves(h, data, at))
  {
    HonestParts(h, data, at, entries);
    LookupZip(entries, PartLeafIdents(|data|, at), PartLeaves(h, data, at));
    PartRebuilds(h, data, at);
    PartFoldsUp(h, data, at, entries);
  }

  /** Round trip through the wire: whatever an honest responder sends for a part,
      the consumer accepts against the true master, and it gets exactly that
      part's block hashes. */
  lemma {:induction false} RecoveryRoundTrip(h: Hash, data: bytes, partIndex: int, at: int)
    requires at == partIndex * PARTSIZE && Answer(h, data, partIndex).Success?
    ensures 0 <= at && StartsPart(|data|, at)
    ensures VerifySpec(h, Answer(h, data, partIndex).value, partIndex, |data|, Root(h, data, 0, ShapeOf(|data|, true)))
            == Success(PartLeaves(h, data, at))
  {
    HonestResponder(h, data, partIndex);
    HonestAnswer(h, data, partIndex, at);
    var entries := HonestEntries(h, data, at);
    HonestEntriesDistinct(h, data, at);
    WireRoundTrip(entries, |data|);
    MapOfDistinct(entries, map[]);
    HonestEntriesVerify(h, data, at, MapOf(entries, map[]));
  }
}
