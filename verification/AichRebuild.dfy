/** The other consumer, `aich_rebuild_master_from_part`: the master recomputed
    from the bytes of one part and a blob. */
module AichRebuild {
  import opened Base
  import opened AichTree
  import opened AichNodes
  import opened AichPath
  import opened AichRecovery
  import opened AichVerify
  import opened AichTheorems
  import opened AichSound

  /** `resolve`. Nothing found is None; a blob entry of a node of at most one
      block comes before the part bytes. */
  function Resolve(h: Hash, entries: Entries, leaves: seq<bytes>, partStart: nat, partSize: nat,
                   start: nat, s: Shape, ident: nat): Result<Option<bytes>, Error>
    decreases s
  {
    if ident in entries && s.Size() <= BLOCKSIZE then Success(Some(entries[ident]))
    else if start >= partStart && start + s.Size() <= partStart + partSize then
      var rel := start - partStart;
      var node :- BuildTree(h, Slice(leaves, rel / BLOCKSIZE, (rel + s.Size() + BLOCKSIZE - 1) / BLOCKSIZE),
                            start, s, IsLeft(ident));
      Success(Some(node.hash))
    else if ident in entries then Success(Some(entries[ident]))
    else if s.Block? then Success(None)
    else
      var left :- Resolve(h, entries, leaves, partStart, partSize, start, s.left, Child(ident, true));
      var right :- Resolve(h, entries, leaves, partStart, partSize, start + s.left.Size(), s.right, Child(ident, false));
      if left.None? || right.None? then Success(None) else Success(Some(HashPair(h, left.value, right.value)))
  }

  /** Outside the part, an inner node is its entry or its two halves. */
  lemma {:induction false} ResolveOutside(h: Hash, entries: Entries, leaves: seq<bytes>, partStart: nat, partSize: nat,
                                          start: nat, size: nat, s: Shape, ident: nat,
                                          left: Result<Option<bytes>, Error>, right: Result<Option<bytes>, Error>)
    requires s.Split? && size == s.Size() && (start < partStart || partStart + partSize < start + size)
    requires left == Resolve(h, entries, leaves, partStart, partSize, start, s.left, Child(ident, true))
    requires right == Resolve(h, entries, leaves, partStart, partSize, start + s.left.Size(), s.right, Child(ident, false))
    ensures Resolve(h, entries, leaves, partStart, partSize, start, s, ident)
            == if ident in entries then Success(Some(entries[ident]))
               else if left.Failure? then left
               else if right.Failure? then right
               else if left.value.None? || right.value.None? then Success(None)
               else Success(Some(HashPair(h, left.value.value, right.value.value)))
  {
  }

  /** `aich_hash_data(part_data).block_hashes` */
  function DataLeaves(h: Hash, partData: bytes): seq<bytes> {
    Leaves(h, partData, 0, ShapeOf(|partData|, true))
  }

  function RebuildSpec(h: Hash, partData: bytes, partIndex: int, recovery: bytes, fileSize: nat): Result<bytes, Error> {
    var partStart := partIndex * PARTSIZE;
    if partStart < 0 || partStart >= fileSize || |partData| != PartSize(fileSize, partStart) then Failure(AichError)
    else
      var entries :- ParseSpec(recovery);
      RebuildEntries(h, partData, partStart, entries, fileSize)
  }

  function RebuildEntries(h: Hash, partData: bytes, partStart: nat, entries: Entries, fileSize: nat): Result<bytes, Error> {
    var master :- Resolve(h, entries, DataLeaves(h, partData), partStart, |partData|, 0, ShapeOf(fileSize, true), 1);
    if master.None? then Failure(AichError) else Success(master.value)
  }

  /** `aich_rebuild_master_from_part` */
  method RebuildMaster(h: Hash, partData: bytes, partIndex: int, recovery: bytes, fileSize: nat)
    returns (r: Result<bytes, Error>)
    ensures r == RebuildSpec(h, partData, partIndex, recovery, fileSize)
  {
    var partStart := partIndex * PARTSIZE;
    if partStart < 0 || partStart >= fileSize {
      return Failure(AichError);
    }
    var partSize := Min(PARTSIZE, fileSize - partStart);
    if |partData| != partSize {
      return Failure(AichError);
    }
    var entries :- ParseRecovery(recovery);
    var _, blockHashes := HashData(h, partData);
    var master :- Resolve(h, entries, blockHashes, partStart, partSize, 0, ShapeOf(fileSize, true), 1);
    if master.None? {
      return Failure(AichError);
    }
    return Success(master.value);
  }

  lemma {:induction false} SameBlock(data: bytes, at: nat, size: nat, j: nat)
    requires at + size <= |data| && j * BLOCKSIZE < size
    ensures PartBlockBytes(data[at..at + size], 0, size, j) == PartBlockBytes(data, at, size, j)
  {
    var lo, hi := j * BLOCKSIZE, Min((j + 1) * BLOCKSIZE, size);
    SliceOfSlice(data, at, size, lo, hi);
  }

  lemma {:induction false} SegmentLeafCount(h: Hash, data: bytes, at: nat, size: nat, isLeft: bool)
    requires at + size <= |data| && size <= PARTSIZE
    ensures |Leaves(h, data, at, ShapeOf(size, isLeft))| == ShapeOf(size, isLeft).LeafCount() == CeilDiv(size, BLOCKSIZE)
  {
    LeafCountIsLength(h, data, at, ShapeOf(size, isLeft));
    ShapeLeafCount(size, isLeft);
    SmallBlockCount(size);
  }

  /** The leaves of a part do not depend on where it hangs. */
  lemma {:induction false} LeavesOfPart(h: Hash, data: bytes, at: nat, size: nat, isLeft: bool)
    requires at + size <= |data| && size <= PARTSIZE
    ensures Leaves(h, data[at..at + size], 0, ShapeOf(size, true)) == Leaves(h, data, at, ShapeOf(size, isLeft))
  {
    var partData := data[at..at + size];
    var ours, theirs := Leaves(h, partData, 0, ShapeOf(size, true)), Leaves(h, data, at, ShapeOf(size, isLeft));
    SegmentLeafCount(h, partData, 0, size, true);
    SegmentLeafCount(h, data, at, size, isLeft);
    forall j | 0 <= j < |ours|
      ensures ours[j] == theirs[j]
    {
      SegmentBlock(h, partData, 0, size, true, j);
      SegmentBlock(h, data, at, size, isLeft, j);
      SameBlock(data, at, size, j);
    }
  }

  /** At the part node the part bytes decide, unless it is one block and has an entry. */
  lemma {:induction false} ResolvePartNode(h: Hash, entries: Entries, leaves: seq<bytes>, at: nat, size: nat, s: Shape, ident: nat)
    requires s.Size() == size && (ident !in entries || size > BLOCKSIZE)
    requires |leaves| == CeilDiv(size, BLOCKSIZE) && BuildTree(h, leaves, at, s, IsLeft(ident)).Success?
    ensures Resolve(h, entries, leaves, at, size, at, s, ident)
            == Success(Some(BuildTree(h, leaves, at, s, IsLeft(ident)).value.hash))
  {
    assert Slice(leaves, 0, |leaves|) == leaves;
  }

  /** Above the part, a node with no entry is the hash of its two halves. */
  lemma {:induction false} ResolveStep(h: Hash, entries: Entries, leaves: seq<bytes>, partStart: nat, partSize: nat,
                    start: nat, s: Shape, ident: nat, left: bytes, right: bytes)
    requires !AtPart(s) && s.Size() > partSize && ident !in entries
    requires Resolve(h, entries, leaves, partStart, partSize, start, s.left, Child(ident, true)) == Success(Some(left))
    requires Resolve(h, entries, leaves, partStart, partSize, start + s.left.Size(), s.right, Child(ident, false))
             == Success(Some(right))
    ensures Resolve(h, entries, leaves, partStart, partSize, start, s, ident) == Success(Some(HashPair(h, left, right)))
  {
  }

  /** A sibling of the walk is taken from its entry. */
  lemma {:induction false} ResolveSibling(h: Hash, entries: Entries, leaves: seq<bytes>, partStart: nat, partSize: nat,
                       start: nat, s: Shape, ident: nat)
    requires ident in entries && s.Size() > 0
    requires start + s.Size() <= partStart || partStart + partSize <= start
    ensures Resolve(h, entries, leaves, partStart, partSize, start, s, ident) == Success(Some(entries[ident]))
  {
  }

  // ----- the rebuild is a climb of the same chain -----

  /** Off the walk, every sibling resolves to the given value. */
  ghost predicate SiblingsResolve(h: Hash, entries: Entries, leaves: seq<bytes>, partStart: nat, partSize: nat,
                                  start: nat, s: Shape, ident: nat, values: Entries)
    decreases s
  {
    AtPart(s) ||
    var middle := start + s.left.Size();
    var goLeft := partStart < middle;
    var sibling := Child(ident, !goLeft);
    && sibling in values
    && (goLeft ==>
          && Resolve(h, entries, leaves, partStart, partSize, middle, s.right, sibling) == Success(Some(values[sibling]))
          && SiblingsResolve(h, entries, leaves, partStart, partSize, start, s.left, Child(ident, true), values))
    && (!goLeft ==>
          && Resolve(h, entries, leaves, partStart, partSize, start, s.left, sibling) == Success(Some(values[sibling]))
          && SiblingsResolve(h, entries, leaves, partStart, partSize, middle, s.right, Child(ident, false), values))
  }

  /** An entry takes the place of the part bytes: at a node above the part, or at the
      part's own node when that is one block. */
  ghost predicate Shadowed(entries: Entries, s: Shape, at: nat, ident: nat)
    requires at < s.Size()
    decreases s
  {
    if AtPart(s) then ident in entries && s.Size() <= BLOCKSIZE
    else
      || ident in entries
      || (if at < s.left.Size() then Shadowed(entries, s.left, at, Child(ident, true))
          else Shadowed(entries, s.right, at - s.left.Size(), Child(ident, false)))
  }

  /** No entry on the walk at all, as honest blobs have it. */
  lemma {:induction false} PathFree(entries: Entries, s: Shape, at: nat, ident: nat)
    requires at < s.Size() && forall x :: x in PathIdents(s, at, ident) ==> x !in entries
    ensures !Shadowed(entries, s, at, ident)
    decreases s
  {
    assert PathIdents(s, at, ident)[0] == ident;
    if !AtPart(s) {
      WalkStep(s, at, ident);
      if at < s.left.Size() {
        PathFree(entries, s.left, at, Child(ident, true));
      } else {
        PathFree(entries, s.right, at - s.left.Size(), Child(ident, false));
      }
    }
  }

  lemma {:induction false} PartUnshadowed(entries: Entries, s: Shape, at: nat, ident: nat)
    requires at < s.Size() && !Shadowed(entries, s, at, ident)
    ensures PartIdent(s, at, ident) !in entries || PartShape(s, at).Size() > BLOCKSIZE
    decreases s
  {
    if !AtPart(s) {
      if at < s.left.Size() {
        PartUnshadowed(entries, s.left, at, Child(ident, true));
      } else {
        PartUnshadowed(entries, s.right, at - s.left.Size(), Child(ident, false));
      }
    }
  }

  /** The same for the part of a file. */
  ghost predicate ShadowedPart(entries: Entries, fileSize: nat, at: nat)
    requires StartsPart(fileSize, at)
  {
    Shadowed(entries, ShapeOf(fileSize, true), at, 1)
  }

  lemma {:induction false} PartNodeUnshadowed(entries: Entries, fileSize: nat, at: nat)
    requires StartsPart(fileSize, at) && !ShadowedPart(entries, fileSize, at)
    ensures PartIdent(ShapeOf(fileSize, true), at, 1) !in entries || PartSize(fileSize, at) > BLOCKSIZE
  {
    PartUnshadowed(entries, ShapeOf(fileSize, true), at, 1);
    PartReached(fileSize, at);
  }

  /** The top of the walk: a node is its next node and its sibling, hashed. */
  lemma {:induction false} TopResolves(h: Hash, entries: Entries, leaves: seq<bytes>, partStart: nat, partSize: nat,
                    start: nat, s: Shape, ident: nat, values: Entries, goLeft: bool, inner: bytes)
    requires !AtPart(s) && s.Size() > partSize && ident !in entries && goLeft == (partStart < start + s.left.Size())
    requires SiblingsResolve(h, entries, leaves, partStart, partSize, start, s, ident, values)
    requires goLeft ==>
               Resolve(h, entries, leaves, partStart, partSize, start, s.left, Child(ident, true)) == Success(Some(inner))
    requires !goLeft ==>
               Resolve(h, entries, leaves, partStart, partSize, start + s.left.Size(), s.right, Child(ident, false))
               == Success(Some(inner))
    ensures var sibling := Child(ident, !goLeft);
            && sibling in values
            && Resolve(h, entries, leaves, partStart, partSize, start, s, ident)
               == Success(Some(Combine(h, goLeft, inner, values[sibling])))
  {
    var sibling := Child(ident, !goLeft);
    if goLeft {
      ResolveStep(h, entries, leaves, partStart, partSize, start, s, ident, inner, values[sibling]);
    } else {
      ResolveStep(h, entries, leaves, partStart, partSize, start, s, ident, values[sibling], inner);
    }
  }

  /** Where no entry takes the place of the part, the rebuild folds the part up the very chain
      the other consumer climbs. */
  lemma {:induction false} ResolveFoldsUp(h: Hash, entries: Entries, leaves: seq<bytes>, partStart: nat, partSize: nat,
                                          start: nat, s: Shape, ident: nat, values: Entries, partHash: bytes,
                                          chain: seq<Turn>)
    requires Reaches(s, start, partStart, partSize) && partSize <= PARTSIZE
    requires SiblingsResolve(h, entries, leaves, partStart, partSize, start, s, ident, values)
    requires !Shadowed(entries, s, partStart - start, ident)
    requires Resolve(h, entries, leaves, partStart, partSize, partStart, PartShape(s, partStart - start),
                     PartIdent(s, partStart - start, ident)) == Success(Some(partHash))
    requires chain == Chain(s, partStart - start, ident)
    ensures FoldUp(h, values, chain, partHash).Success?
    ensures Resolve(h, entries, leaves, partStart, partSize, start, s, ident)
            == Success(Some(FoldUp(h, values, chain, partHash).value))
    decreases s
  {
    if !AtPart(s) {
      var at := partStart - start;
      var goLeft := at < s.left.Size();
      var turn := Turn(goLeft, Child(ident, !goLeft));
      var rest := if goLeft then Chain(s.left, at, Child(ident, true))
                  else Chain(s.right, at - s.left.Size(), Child(ident, false));
      if goLeft {
        ResolveFoldsUp(h, entries, leaves, partStart, partSize, start, s.left, Child(ident, true), values, partHash, rest);
      } else {
        ResolveFoldsUp(h, entries, leaves, partStart, partSize, start + s.left.Size(), s.right, Child(ident, false),
                       values, partHash, rest);
      }
      var inner := FoldUp(h, values, rest, partHash).value;
      TopResolves(h, entries, leaves, partStart, partSize, start, s, ident, values, goLeft, inner);
      FoldStep(h, values, turn, rest, partHash, inner);
    }
  }

  // ----- completeness -----

  lemma {:induction false} EntriesResolve(h: Hash, entries: Entries, leaves: seq<bytes>, partStart: nat, partSize: nat,
                                          start: nat, s: Shape, ident: nat)
    requires Reaches(s, start, partStart, partSize) && InParts(s)
    requires forall x :: x in SiblingIdents(Chain(s, partStart - start, ident)) ==> x in entries
    ensures SiblingsResolve(h, entries, leaves, partStart, partSize, start, s, ident, entries)
    decreases s
  {
    if !AtPart(s) {
      var middle := start + s.left.Size();
      WalkStep(s, partStart - start, ident);
      if partStart < middle {
        ReachedInside(s.left, start, partStart, partSize);
        EntriesResolve(h, entries, leaves, partStart, partSize, start, s.left, Child(ident, true));
        ResolveSibling(h, entries, leaves, partStart, partSize, middle, s.right, Child(ident, false));
      } else {
        ReachedInside(s.right, middle, partStart, partSize);
        EntriesResolve(h, entries, leaves, partStart, partSize, middle, s.right, Child(ident, false));
        ResolveSibling(h, entries, leaves, partStart, partSize, start, s.left, Child(ident, true));
      }
    }
  }

  /** No node above a part is empty. */
  ghost predicate InParts(s: Shape) {
    s.Size() > 0 && (AtPart(s) || (InParts(s.left) && InParts(s.right)))
  }

  lemma {:induction false} ShapeInParts(size: nat, isLeft: bool)
    requires size > 0
    ensures InParts(ShapeOf(size, isLeft))
    decreases size
  {
    if size > PARTSIZE {
      ShapeInParts(LeftSize(size, isLeft), true);
      ShapeInParts(size - LeftSize(size, isLeft), false);
    }
  }

  lemma {:induction false} PartResolves(h: Hash, data: bytes, at: nat, entries: Entries)
    requires StartsPart(|data|, at)
    requires PartIdent(ShapeOf(|data|, true), at, 1) !in entries || PartSize(|data|, at) > BLOCKSIZE
    ensures Resolve(h, entries, PartLeaves(h, data, at), at, PartSize(|data|, at), at, PartNodeShape(|data|, at),
                    PartIdent(ShapeOf(|data|, true), at, 1))
            == Success(Some(Root(h, data, at, PartNodeShape(|data|, at))))
  {
    var part := PartIdent(ShapeOf(|data|, true), at, 1);
    PartRebuilds(h, data, at);
    SegmentLeafCount(h, data, at, PartSize(|data|, at), IsLeft(part));
    ResolvePartNode(h, entries, PartLeaves(h, data, at), at, PartSize(|data|, at), PartNodeShape(|data|, at), part);
  }

  lemma {:induction false} ListedSiblings(h: Hash, data: bytes, at: nat, entries: Entries)
    requires StartsPart(|data|, at)
    requires Carries(entries, SiblingEntries(h, data, 0, ShapeOf(|data|, true), at, 1))
    ensures forall x :: x in SiblingIdents(Chain(ShapeOf(|data|, true), at, 1)) ==> x in entries
  {
    SiblingEntryIdents(h, data, 0, ShapeOf(|data|, true), at, 1);
    IdentsInEntries(SiblingEntries(h, data, 0, ShapeOf(|data|, true), at, 1), entries);
  }

  lemma {:induction false} TrueSiblingsResolve(h: Hash, fileSize: nat, at: nat, entries: Entries, leaves: seq<bytes>)
    requires StartsPart(fileSize, at)
    requires forall x :: x in SiblingIdents(Chain(ShapeOf(fileSize, true), at, 1)) ==> x in entries
    ensures SiblingsResolve(h, entries, leaves, at, PartSize(fileSize, at), 0, ShapeOf(fileSize, true), 1, entries)
  {
    PartReached(fileSize, at);
    ShapeInParts(fileSize, true);
    EntriesResolve(h, entries, leaves, at, PartSize(fileSize, at), 0, ShapeOf(fileSize, true), 1);
  }

  lemma {:induction false} FoldsToMaster(h: Hash, entries: Entries, leaves: seq<bytes>, at: nat, size: nat, s: Shape,
                                         partHash: bytes, master: bytes)
    requires Reaches(s, 0, at, size) && size <= PARTSIZE && !Shadowed(entries, s, at, 1)
    requires SiblingsResolve(h, entries, leaves, at, size, 0, s, 1, entries)
    requires Resolve(h, entries, leaves, at, size, at, PartShape(s, at), PartIdent(s, at, 1)) == Success(Some(partHash))
    requires FoldUp(h, entries, Chain(s, at, 1), partHash) == Success(master)
    ensures Resolve(h, entries, leaves, at, size, 0, s, 1) == Success(Some(master))
  {
    ResolveFoldsUp(h, entries, leaves, at, size, 0, s, 1, entries, partHash, Chain(s, at, 1));
  }

  lemma {:induction false} MasterResolves(h: Hash, data: bytes, at: nat, entries: Entries)
    requires StartsPart(|data|, at)
    requires Carries(entries, SiblingEntries(h, data, 0, ShapeOf(|data|, true), at, 1))
    requires !ShadowedPart(entries, |data|, at)
    ensures Resolve(h, entries, PartLeaves(h, data, at), at, PartSize(|data|, at), 0, ShapeOf(|data|, true), 1)
            == Success(Some(Master(h, data)))
  {
    PartNodeUnshadowed(entries, |data|, at);
    PartResolves(h, data, at, entries);
    ListedSiblings(h, data, at, entries);
    TrueSiblingsResolve(h, |data|, at, entries, PartLeaves(h, data, at));
    PartReached(|data|, at);
    PartFoldsUp(h, data, at, entries);
    FoldsToMaster(h, entries, PartLeaves(h, data, at), at, PartSize(|data|, at), ShapeOf(|data|, true),
                  Root(h, data, at, PartNodeShape(|data|, at)), Master(h, data));
  }

  lemma {:induction false} TruePartLeaves(h: Hash, data: bytes, at: nat, partData: bytes)
    requires StartsPart(|data|, at) && partData == data[at..at + PartSize(|data|, at)]
    ensures |partData| == PartSize(|data|, at) && DataLeaves(h, partData) == PartLeaves(h, data, at)
  {
    LeavesOfPart(h, data, at, PartSize(|data|, at), IsLeft(PartIdent(ShapeOf(|data|, true), at, 1)));
  }

  /** Rebuild completeness, for every file size: the true part bytes and the true
      siblings give the streaming master, whatever else the blob holds, unless an
      entry takes the place of the part bytes. */
  lemma {:induction false} RebuildComplete(h: Hash, data: bytes, at: nat, entries: Entries, partData: bytes)
    requires StartsPart(|data|, at) && partData == data[at..at + PartSize(|data|, at)]
    requires Carries(entries, SiblingEntries(h, data, 0, ShapeOf(|data|, true), at, 1))
    requires !ShadowedPart(entries, |data|, at)
    ensures RebuildEntries(h, partData, at, entries, |data|) == Success(Master(h, data))
  {
    TruePartLeaves(h, data, at, partData);
    MasterResolves(h, data, at, entries);
  }

  lemma {:induction false} IdentsInEntries(list: seq<Entry>, entries: Entries)
    requires Carries(entries, list)
    ensures forall x :: x in Idents(list) ==> x in entries
  {
    if list != [] {
      CarriesParts(entries, [list[0]], list[1..]);
      assert list == [list[0]] + list[1..];
      IdentsInEntries(list[1..], entries);
    }
  }
}
