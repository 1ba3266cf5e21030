/** The two ends of part recovery: the responder (`aich_part_recovery_data`) and
    the consumer that authenticates its blob (`aich_verified_part_blocks`). */
module AichVerify {
  import opened Base
  import opened AichTree
  import opened AichNodes
  import opened AichPath
  import opened AichRecovery

  // ----- the responder -----

  /** The walk down the materialised tree: sibling entries collected so far, the
      node reached and its ident. */
  function NodeWalk(node: Node, ident: nat, partStart: nat, partSize: nat, collected: seq<Entry>)
    : Result<(seq<Entry>, Node, nat), Error>
    decreases node
  {
    if node.start == partStart && node.size == partSize then Success((collected, node, ident))
    else if node.Leaf? then Failure(AichError)
    else
      var goLeft := partStart < node.left.start + node.left.size;
      var (next, sibling) := if goLeft then (node.left, node.right) else (node.right, node.left);
      NodeWalk(next, Child(ident, next.isLeft), partStart, partSize,
               collected + [Entry(Child(ident, sibling.isLeft), sibling.hash)])
  }

  function RespondSpec(h: Hash, fileSize: nat, master: bytes, blockHashes: seq<bytes>, partIndex: int)
    : Result<bytes, Error>
  {
    var partStart := partIndex * PARTSIZE;
    if fileSize <= BLOCKSIZE || partStart < 0 || partStart >= fileSize then Failure(AichError)
    else
      var root :- BuildTree(h, blockHashes, 0, ShapeOf(fileSize, true), true);
      if root.hash != master then Failure(AichError)
      else
        var (siblings, part, ident) :- NodeWalk(root, 1, partStart, PartSize(fileSize, partStart), []);
        SerializeEntries(siblings + LeafEntries(part, ident), fileSize)
  }

  /** `aich_part_recovery_data` for a hash result of any origin. */
  method PartRecoveryData(h: Hash, fileSize: nat, master: bytes, blockHashes: seq<bytes>, partIndex: int)
    returns (r: Result<bytes, Error>)
    ensures r == RespondSpec(h, fileSize, master, blockHashes, partIndex)
  {
    if fileSize <= BLOCKSIZE {
      return Failure(AichError);
    }
    var partStart := partIndex * PARTSIZE;
    if partStart < 0 || partStart >= fileSize {
      return Failure(AichError);
    }
    var partSize := Min(PARTSIZE, fileSize - partStart);
    var root :- BuildTree(h, blockHashes, 0, ShapeOf(fileSize, true), true);
    if root.hash != master {
      return Failure(AichError);
    }
    var entries: seq<Entry> := [];
    var node := root;
    var ident := 1;
    while !(node.start == partStart && node.size == partSize)
      invariant NodeWalk(root, 1, partStart, partSize, []) == NodeWalk(node, ident, partStart, partSize, entries)
      decreases node
    {
      if node.Leaf? {
        return Failure(AichError);
      }
      var goLeft := partStart < node.left.start + node.left.size;
      var sibling := if goLeft then node.right else node.left;
      entries := entries + [Entry(Child(ident, sibling.isLeft), sibling.hash)];
      node := if goLeft then node.left else node.right;
      ident := Child(ident, node.isLeft);
    }
    entries := entries + LeafEntries(node, ident);
    r := SerializeEntries(entries, fileSize);
  }

  // ----- the consumer -----

  /** The digests found at the given idents; a missing one is an AichError. */
  function Lookup(entries: Entries, idents: seq<nat>): Result<seq<bytes>, Error> {
    if exists i :: 0 <= i < |idents| && idents[i] !in entries then Failure(AichError)
    else Success(seq(|idents|, i requires 0 <= i < |idents| => entries[idents[i]]))
  }

  /** The master rebuilt from a part hash and the siblings of its chain. */
  function FoldUp(h: Hash, entries: Entries, chain: seq<Turn>, partHash: bytes): Result<bytes, Error> {
    if chain == [] then Success(partHash)
    else
      var inner :- FoldUp(h, entries, chain[1..], partHash);
      if chain[0].sibling !in entries then Failure(AichError)
      else Success(Combine(h, chain[0].goLeft, inner, entries[chain[0].sibling]))
  }

  function Combine(h: Hash, goLeft: bool, inner: bytes, sibling: bytes): bytes {
    if goLeft then HashPair(h, inner, sibling) else HashPair(h, sibling, inner)
  }

  function VerifySpec(h: Hash, recovery: bytes, partIndex: int, fileSize: nat, master: bytes)
    : Result<seq<bytes>, Error>
  {
    var partStart := partIndex * PARTSIZE;
    if partStart < 0 || partStart >= fileSize then Failure(AichError)
    else VerifyBlob(h, recovery, partStart, fileSize, master)
  }

  function VerifyBlob(h: Hash, recovery: bytes, partStart: nat, fileSize: nat, master: bytes)
    : Result<seq<bytes>, Error>
    requires StartsPart(fileSize, partStart)
  {
    var entries :- ParseSpec(recovery);
    VerifyEntries(h, entries, partStart, fileSize, master)
  }

  function VerifyEntries(h: Hash, entries: Entries, partStart: nat, fileSize: nat, master: bytes)
    : Result<seq<bytes>, Error>
    requires StartsPart(fileSize, partStart)
  {
    var s, size := ShapeOf(fileSize, true), PartSize(fileSize, partStart);
    var ident := PartIdent(s, partStart, 1);
    var blocks :- Lookup(entries, PartLeafIdents(fileSize, partStart));
    var part :- BuildTree(h, blocks, partStart, ShapeOf(size, IsLeft(ident)), IsLeft(ident));
    var combined :- FoldUp(h, entries, Chain(s, partStart, 1), part.hash);
    if combined != master then Failure(AichError) else Success(blocks)
  }

  method LookupLeaves(entries: Entries, idents: seq<nat>) returns (r: Result<seq<bytes>, Error>)
    ensures r == Lookup(entries, idents)
  {
    var blocks: seq<bytes> := [];
    var i := 0;
    while i < |idents|
      invariant i == |blocks| <= |idents|
      invariant forall j :: 0 <= j < i ==> idents[j] in entries && blocks[j] == entries[idents[j]]
    {
      if idents[i] !in entries {
        return Failure(AichError);
      }
      blocks := blocks + [entries[idents[i]]];
      i := i + 1;
    }
    assert blocks == Lookup(entries, idents).value;
    return Success(blocks);
  }

  /** The second size-only walk: collects the sibling chain, top-down. */
  method SiblingChain(partStart: nat, fileSize: nat) returns (chain: seq<Turn>)
    requires StartsPart(fileSize, partStart)
    ensures chain == Chain(ShapeOf(fileSize, true), partStart, 1)
  {
    var partSize := Min(PARTSIZE, fileSize - partStart);
    var c := Cursor(0, fileSize, 1);
    chain := [];
    ghost var node := ShapeOf(fileSize, true);
    ghost var whole := Chain(node, partStart, 1);
    FileReached(node, fileSize, partStart, 1);
    while !Arrived(c, partStart, partSize)
      invariant OnPath(c, partStart, partSize, node)
      invariant chain + Chain(node, partStart - c.start, c.ident) == whole
      decreases c.size
    {
      ArrivesAtPart(c, partStart, partSize, node);
      var goLeft, d := GoesLeft(c, partStart), Down(c, partStart);
      ghost var next := if goLeft then node.left else node.right;
      StepDown(c, d, partStart, partSize, node, next, goLeft);
      var turn := Turn(goLeft, Child(c.ident, !goLeft));
      ConcatAssoc(chain, [turn], Chain(next, partStart - d.start, d.ident));
      chain := chain + [turn];
      c, node := d, next;
    }
    ArrivesAtPart(c, partStart, partSize, node);
  }

  method ClimbChain(h: Hash, entries: Entries, chain: seq<Turn>, partHash: bytes) returns (r: Result<bytes, Error>)
    ensures r == FoldUp(h, entries, chain, partHash)
  {
    var combined := partHash;
    var i := |chain|;
    while i > 0
      invariant 0 <= i <= |chain|
      invariant FoldUp(h, entries, chain[i..], partHash) == Success(combined)
    {
      i := i - 1;
      if chain[i].sibling !in entries {
        MissingSibling(h, entries, chain, i, partHash);
        return Failure(AichError);
      }
      combined := Combine(h, chain[i].goLeft, combined, entries[chain[i].sibling]);
      assert chain[i..][1..] == chain[i + 1..];
    }
    assert chain[0..] == chain;
    return Success(combined);
  }

  lemma {:induction false} MissingSibling(h: Hash, entries: Entries, chain: seq<Turn>, i: nat, partHash: bytes)
    requires i < |chain| && chain[i].sibling !in entries
    requires FoldUp(h, entries, chain[i + 1..], partHash).Success?
    ensures FoldUp(h, entries, chain, partHash) == Failure(AichError)
    decreases i
  {
    if i > 0 {
      assert chain[1..][i - 1] == chain[i] && chain[1..][i..] == chain[i + 1..];
      MissingSibling(h, entries, chain[1..], i - 1, partHash);
    }
  }

  /** `aich_verified_part_blocks` */
  method VerifiedPartBlocks(h: Hash, recovery: bytes, partIndex: int, fileSize: nat, master: bytes)
    returns (r: Result<seq<bytes>, Error>)
    ensures r == VerifySpec(h, recovery, partIndex, fileSize, master)
  {
    var partStart := partIndex * PARTSIZE;
    var path := PartPathIdent(partIndex, fileSize);
    if path.Failure? {
      r := Failure(path.error);
    } else {
      var (ident, partSize, isLeft) := path.value;
      PartStarts(partIndex, partStart, fileSize);
      r := ParseAndVerify(h, recovery, partStart, fileSize, ident, partSize, isLeft, master);
    }
    SpecIs(h, recovery, partIndex, partStart, fileSize, master, r);
  }

  lemma {:induction false} SpecIs(h: Hash, recovery: bytes, partIndex: int, partStart: int, fileSize: nat, master: bytes,
                                  r: Result<seq<bytes>, Error>)
    requires partStart == partIndex * PARTSIZE
    requires r == if partStart < 0 || partStart >= fileSize then Failure(AichError)
                  else VerifyBlob(h, recovery, partStart, fileSize, master)
    ensures r == VerifySpec(h, recovery, partIndex, fileSize, master)
  {
  }

  method ParseAndVerify(h: Hash, recovery: bytes, partStart: nat, fileSize: nat, ident: nat, partSize: nat, isLeft: bool,
                        master: bytes) returns (r: Result<seq<bytes>, Error>)
    requires StartsPart(fileSize, partStart) && partSize == PartSize(fileSize, partStart)
    requires ident == PartIdent(ShapeOf(fileSize, true), partStart, 1) && isLeft == IsLeft(ident)
    ensures r == VerifyBlob(h, recovery, partStart, fileSize, master)
  {
    var entries :- ParseRecovery(recovery);
    r := VerifyParsed(h, entries, partStart, fileSize, ident, partSize, isLeft, master);
  }

  /** The rest of it, once the blob is parsed. */
  method VerifyParsed(h: Hash, entries: Entries, partStart: nat, fileSize: nat, ident: nat, partSize: nat, isLeft: bool,
                      master: bytes) returns (r: Result<seq<bytes>, Error>)
    requires StartsPart(fileSize, partStart) && partSize == PartSize(fileSize, partStart)
    requires ident == PartIdent(ShapeOf(fileSize, true), partStart, 1) && isLeft == IsLeft(ident)
    ensures r == VerifyEntries(h, entries, partStart, fileSize, master)
  {
    PartBlocksFit(fileSize, partStart);
    var blocks :- LookupLeaves(entries, LeafIdents(ident, CeilDiv(partSize, BLOCKSIZE), isLeft));
    var part :- BuildTree(h, blocks, partStart, ShapeOf(partSize, isLeft), isLeft);
    var chain := SiblingChain(partStart, fileSize);
    var combined :- ClimbChain(h, entries, chain, part.hash);
    if combined != master {
      return Failure(AichError);
    }
    return Success(blocks);
  }
}
