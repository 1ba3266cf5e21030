/** Soundness of an accepted blob of any origin: its block hashes are the
    streamed ones, or two different strings that were really hashed collide. */
module AichSound {
  import opened Base
  import opened AichTree
  import opened AichNodes
  import opened AichPath
  import opened AichRecovery
  import opened AichVerify
  import opened AichTheorems

  // ----- the strings each walk feeds to SHA-1 -----

  ghost function StreamStrings(h: Hash, data: bytes, start: nat, s: Shape): set<bytes>
    requires start + s.Size() <= |data|
    decreases s
  {
    match s
    case Block(n) => {data[start..start + n]}
    case Split(l, r) =>
      var middle := start + l.Size();
      {Root(h, data, start, l) + Root(h, data, middle, r)}
      + StreamStrings(h, data, start, l) + StreamStrings(h, data, middle, r)
  }

  ghost function TreeStrings(node: Node): set<bytes> {
    match node
    case Leaf(_, _, _, _) => {}
    case Branch(_, _, _, _, l, r) => {l.hash + r.hash} + TreeStrings(l) + TreeStrings(r)
  }

  ghost function ChainStrings(h: Hash, entries: Entries, chain: seq<Turn>, partHash: bytes): set<bytes>
    requires FoldUp(h, entries, chain, partHash).Success?
  {
    if chain == [] then {}
    else {ChainString(h, entries, chain, partHash)} + ChainStrings(h, entries, chain[1..], partHash)
  }

  function ChainString(h: Hash, entries: Entries, chain: seq<Turn>, partHash: bytes): bytes
    requires chain != [] && FoldUp(h, entries, chain, partHash).Success?
  {
    var inner, sibling := FoldUp(h, entries, chain[1..], partHash).value, entries[chain[0].sibling];
    if chain[0].goLeft then inner + sibling else sibling + inner
  }

  // ----- finding a collision -----

  type Collision = Option<(bytes, bytes)>

  function OrElse(first: Collision, second: Collision): Collision {
    if first.Some? then first else second
  }

  /** Where the rebuilt tree first hashes another string than the streaming walk. */
  function TreeCollision(h: Hash, data: bytes, start: nat, s: Shape, node: Node): Collision
    requires start + s.Size() <= |data|
    decreases s
  {
    if s.Block? || node.Leaf? then None
    else
      var middle := start + s.left.Size();
      var rebuilt, streamed := node.left.hash + node.right.hash, Root(h, data, start, s.left) + Root(h, data, middle, s.right);
      if rebuilt != streamed then Some((rebuilt, streamed))
      else OrElse(TreeCollision(h, data, start, s.left, node.left), TreeCollision(h, data, middle, s.right, node.right))
  }

  function ChainCollision(h: Hash, data: bytes, start: nat, s: Shape, at: nat, ident: nat,
                          entries: Entries, partHash: bytes): Collision
    requires start + s.Size() <= |data| && at < s.Size()
    requires FoldUp(h, entries, Chain(s, at, ident), partHash).Success?
    decreases s
  {
    if AtPart(s) then None
    else
      var chain, middle := Chain(s, at, ident), start + s.left.Size();
      var folded := ChainString(h, entries, chain, partHash);
      var streamed := Root(h, data, start, s.left) + Root(h, data, middle, s.right);
      if folded != streamed then Some((folded, streamed))
      else if at < s.left.Size() then
        ChainCollision(h, data, start, s.left, at, Child(ident, true), entries, partHash)
      else
        ChainCollision(h, data, middle, s.right, at - s.left.Size(), Child(ident, false), entries, partHash)
  }

  ghost predicate Collides(h: Hash, c: Collision, ours: set<bytes>, theirs: set<bytes>) {
    && c.Some?
    && c.value.0 != c.value.1
    && Sha1(h, c.value.0) == Sha1(h, c.value.1)
    && c.value.0 in ours
    && c.value.1 in theirs
  }

  lemma {:induction false} SameHalves(a: bytes, b: bytes, c: bytes, d: bytes)
    requires |a| <= 20 && |b| <= 20 && |c| == 20 && |d| == 20 && a + b == c + d
    ensures a == c && b == d
  {
    assert |a + b| == 40;
    assert a == (a + b)[..20] && b == (a + b)[20..];
    assert c == (c + d)[..20] && d == (c + d)[20..];
  }

  /** The case of two halves, on values: the string of this node is new, or both
      halves are decided. */
  lemma {:induction false} HalvesSound(h: Hash, c: Collision, left: Collision, right: Collision, rebuilt: bytes, streamed: bytes,
                    ours: set<bytes>, oursLeft: set<bytes>, oursRight: set<bytes>,
                    theirs: set<bytes>, theirsLeft: set<bytes>, theirsRight: set<bytes>)
    requires c == if rebuilt != streamed then Some((rebuilt, streamed)) else OrElse(left, right)
    requires ours == {rebuilt} + oursLeft + oursRight && theirs == {streamed} + theirsLeft + theirsRight
    requires Sha1(h, rebuilt) == Sha1(h, streamed)
    requires rebuilt == streamed ==>
               && (left.Some? ==> Collides(h, left, oursLeft, theirsLeft))
               && (right.Some? ==> Collides(h, right, oursRight, theirsRight))
    ensures c.Some? ==> Collides(h, c, ours, theirs)
    ensures c.None? <==> rebuilt == streamed && left.None? && right.None?
  {
  }

  ghost predicate Narrow(leaves: seq<bytes>) {
    forall i :: 0 <= i < |leaves| ==> |leaves[i]| <= 20
  }

  lemma {:induction false} CutLeaves(leaves: seq<bytes>, k: nat, lower: seq<bytes>, upper: seq<bytes>)
    requires Narrow(leaves) && k <= |leaves|
    requires lower == Slice(leaves, 0, k) && upper == Slice(leaves, k, |leaves|)
    ensures leaves == lower + upper && |lower| == k && |upper| == |leaves| - k && Narrow(lower) && Narrow(upper)
  {
    assert lower == leaves[..k] && upper == leaves[k..];
  }

  lemma {:induction false} BlockSound(h: Hash, data: bytes, start: nat, n: nat, leaves: seq<bytes>, isLeft: bool, node: Node)
    requires start + n <= |data| && 0 < n && |leaves| == 1
    requires BuildTree(h, leaves, start, Block(n), isLeft) == Success(node)
    requires node.hash == Root(h, data, start, Block(n))
    ensures leaves == Leaves(h, data, start, Block(n)) && TreeCollision(h, data, start, Block(n), node).None?
  {
    assert leaves == [leaves[0]];
  }

  /** A branch in terms of its halves. */
  lemma {:induction false} SplitValues(h: Hash, data: bytes, start: nat, l: Shape, r: Shape, node: Node,
                                       rebuilt: bytes, streamed: bytes)
    requires start + l.Size() + r.Size() <= |data| && node.Branch?
    requires rebuilt == node.left.hash + node.right.hash
    requires streamed == Root(h, data, start, l) + Root(h, data, start + l.Size(), r)
    ensures Root(h, data, start, Split(l, r)) == Sha1(h, streamed)
    ensures Leaves(h, data, start, Split(l, r)) == Leaves(h, data, start, l) + Leaves(h, data, start + l.Size(), r)
    ensures TreeStrings(node) == {rebuilt} + TreeStrings(node.left) + TreeStrings(node.right)
    ensures StreamStrings(h, data, start, Split(l, r))
            == {streamed} + StreamStrings(h, data, start, l) + StreamStrings(h, data, start + l.Size(), r)
    ensures TreeCollision(h, data, start, Split(l, r), node)
            == if rebuilt != streamed then Some((rebuilt, streamed))
               else OrElse(TreeCollision(h, data, start, l, node.left),
                           TreeCollision(h, data, start + l.Size(), r, node.right))
  {
  }

  lemma {:induction false} SplitBuilt(h: Hash, start: nat, l: Shape, r: Shape, leaves: seq<bytes>, isLeft: bool, node: Node,
                   lower: seq<bytes>, upper: seq<bytes>)
    requires Counted(Split(l, r), true) && |leaves| == l.LeafCount() + r.LeafCount() && Narrow(leaves)
    requires BuildTree(h, leaves, start, Split(l, r), isLeft) == Success(node)
    requires lower == Slice(leaves, 0, Taken(l)) && upper == Slice(leaves, Taken(l), |leaves|)
    ensures lower + upper == leaves
    ensures |lower| == l.LeafCount() && Narrow(lower) && |upper| == r.LeafCount() && Narrow(upper)
    ensures node.Branch? && node.hash == HashPair(h, node.left.hash, node.right.hash)
    ensures BuildTree(h, lower, start, l, true) == Success(node.left) && |node.left.hash| <= 20
    ensures BuildTree(h, upper, start + l.Size(), r, false) == Success(node.right) && |node.right.hash| <= 20
  {
    CutLeaves(leaves, Taken(l), lower, upper);
    HashWidth(h, lower, start, l, true);
    HashWidth(h, upper, start + l.Size(), r, false);
  }

  lemma {:induction false} TreeSound(h: Hash, data: bytes, start: nat, s: Shape, leaves: seq<bytes>, isLeft: bool,
                                     node: Node, c: Collision, ours: set<bytes>, theirs: set<bytes>)
    requires start + s.Size() <= |data| && Counted(s, true) && |leaves| == s.LeafCount() && Narrow(leaves)
    requires BuildTree(h, leaves, start, s, isLeft) == Success(node)
    requires node.hash == Root(h, data, start, s)
    requires c == TreeCollision(h, data, start, s, node)
    requires ours == TreeStrings(node) && theirs == StreamStrings(h, data, start, s)
    ensures c.None? ==> leaves == Leaves(h, data, start, s)
    ensures c.Some? ==> Collides(h, c, ours, theirs)
    decreases s, 1
  {
    match s
    case Block(n) => BlockSound(h, data, start, n, leaves, isLeft, node);
    case Split(l, r) => SplitSound(h, data, start, l, r, leaves, isLeft, node, c, ours, theirs);
  }

  lemma {:induction false} SplitSound(h: Hash, data: bytes, start: nat, l: Shape, r: Shape, leaves: seq<bytes>, isLeft: bool,
                                      node: Node, c: Collision, ours: set<bytes>, theirs: set<bytes>)
    requires start + l.Size() + r.Size() <= |data|
    requires Counted(Split(l, r), true) && |leaves| == l.LeafCount() + r.LeafCount() && Narrow(leaves)
    requires BuildTree(h, leaves, start, Split(l, r), isLeft) == Success(node)
    requires node.hash == Root(h, data, start, Split(l, r))
    requires c == TreeCollision(h, data, start, Split(l, r), node)
    requires ours == TreeStrings(node) && theirs == StreamStrings(h, data, start, Split(l, r))
    ensures c.None? ==> leaves == Leaves(h, data, start, Split(l, r))
    ensures c.Some? ==> Collides(h, c, ours, theirs)
    decreases Split(l, r), 0
  {
    var middle, left, right := start + l.Size(), node.left, node.right;
    var lower, upper := Slice(leaves, 0, Taken(l)), Slice(leaves, Taken(l), |leaves|);
    var rebuilt, streamed := left.hash + right.hash, Root(h, data, start, l) + Root(h, data, middle, r);
    var cl, cr := TreeCollision(h, data, start, l, left), TreeCollision(h, data, middle, r, right);
    SplitBuilt(h, start, l, r, leaves, isLeft, node, lower, upper);
    SplitValues(h, data, start, l, r, node, rebuilt, streamed);
    if rebuilt == streamed {
      SameHalves(left.hash, right.hash, Root(h, data, start, l), Root(h, data, middle, r));
      TreeSound(h, data, start, l, lower, true, left, cl, TreeStrings(left), StreamStrings(h, data, start, l));
      TreeSound(h, data, middle, r, upper, false, right, cr, TreeStrings(right), StreamStrings(h, data, middle, r));
    }
    HalvesSound(h, c, cl, cr, rebuilt, streamed, ours, TreeStrings(left), TreeStrings(right),
                theirs, StreamStrings(h, data, start, l), StreamStrings(h, data, middle, r));
  }

  lemma {:induction false} HashWidth(h: Hash, leaves: seq<bytes>, start: nat, s: Shape, isLeft: bool)
    requires Narrow(leaves)
    ensures var r := BuildTree(h, leaves, start, s, isLeft);
            r.Success? ==> |r.value.hash| <= 20
  {
  }

  /** One link, on values: its string is new, or the rest of the chain decides. */
  lemma {:induction false} LinkSound(h: Hash, c: Collision, rest: Collision, folded: bytes, streamed: bytes,
                  ours: set<bytes>, oursRest: set<bytes>, theirs: set<bytes>, theirsRest: set<bytes>)
    requires c == if folded != streamed then Some((folded, streamed)) else rest
    requires ours == {folded} + oursRest && streamed in theirs && theirsRest <= theirs
    requires Sha1(h, folded) == Sha1(h, streamed)
    requires folded == streamed && rest.Some? ==> Collides(h, rest, oursRest, theirsRest)
    ensures c.Some? ==> Collides(h, c, ours, theirs)
    ensures c.None? ==> folded == streamed && rest.None?
  {
  }

  /** The string hashed at the top of a folded chain. */
  lemma {:induction false} TopString(h: Hash, entries: Entries, turn: Turn, rest: seq<Turn>, partHash: bytes, top: bytes)
    requires FoldUp(h, entries, [turn] + rest, partHash) == Success(top)
    requires |partHash| <= 20 && forall x :: x in entries ==> |entries[x]| <= 20
    ensures FoldUp(h, entries, rest, partHash).Success? && turn.sibling in entries
    ensures var inner, sibling := FoldUp(h, entries, rest, partHash).value, entries[turn.sibling];
            && |inner| <= 20 && |sibling| <= 20
            && ChainString(h, entries, [turn] + rest, partHash) == (if turn.goLeft then inner + sibling else sibling + inner)
            && Sha1(h, ChainString(h, entries, [turn] + rest, partHash)) == top
    ensures ChainStrings(h, entries, [turn] + rest, partHash)
            == {ChainString(h, entries, [turn] + rest, partHash)} + ChainStrings(h, entries, rest, partHash)
  {
    assert ([turn] + rest)[1..] == rest;
    FoldedWidth(h, entries, rest, partHash);
  }

  lemma {:induction false} FoldedWidth(h: Hash, entries: Entries, chain: seq<Turn>, partHash: bytes)
    requires |partHash| <= 20 && FoldUp(h, entries, chain, partHash).Success?
    ensures |FoldUp(h, entries, chain, partHash).value| <= 20
  {
  }

  /** The string hashed at a node, and those below its next node. */
  lemma {:induction false} TopStreamed(h: Hash, data: bytes, start: nat, s: Shape, streamed: bytes)
    requires start + s.Size() <= |data| && s.Split?
    requires streamed == Root(h, data, start, s.left) + Root(h, data, start + s.left.Size(), s.right)
    ensures Root(h, data, start, s) == Sha1(h, streamed) && streamed in StreamStrings(h, data, start, s)
  {
  }

  lemma {:induction false} ChainSound(h: Hash, data: bytes, start: nat, s: Shape, ident: nat, entries: Entries,
                           partHash: bytes, partStart: nat, partSize: nat, chain: seq<Turn>, c: Collision)
    requires start + s.Size() <= |data| && Reaches(s, start, partStart, partSize)
    requires forall x :: x in entries ==> |entries[x]| <= 20
    requires |partHash| <= 20 && chain == Chain(s, partStart - start, ident)
    requires FoldUp(h, entries, chain, partHash) == Success(Root(h, data, start, s))
    requires c == ChainCollision(h, data, start, s, partStart - start, ident, entries, partHash)
    requires partStart + PartShape(s, partStart - start).Size() <= |data|
    ensures c.None? ==> partHash == Root(h, data, partStart, PartShape(s, partStart - start))
    ensures c.Some? ==> Collides(h, c, ChainStrings(h, entries, chain, partHash), StreamStrings(h, data, start, s))
    decreases s, 1
  {
    if !AtPart(s) {
      if partStart < start + s.left.Size() {
        ChainLeft(h, data, start, s, ident, entries, partHash, partStart, partSize, chain, c);
      } else {
        ChainRight(h, data, start, s, ident, entries, partHash, partStart, partSize, chain, c);
      }
    }
  }

  lemma {:induction false} ChainLeft(h: Hash, data: bytes, start: nat, s: Shape, ident: nat, entries: Entries,
                           partHash: bytes, partStart: nat, partSize: nat, chain: seq<Turn>, c: Collision)
    requires start + s.Size() <= |data| && Reaches(s, start, partStart, partSize)
    requires forall x :: x in entries ==> |entries[x]| <= 20
    requires |partHash| <= 20 && chain == Chain(s, partStart - start, ident)
    requires FoldUp(h, entries, chain, partHash) == Success(Root(h, data, start, s))
    requires c == ChainCollision(h, data, start, s, partStart - start, ident, entries, partHash)
    requires partStart + PartShape(s, partStart - start).Size() <= |data|
    requires !AtPart(s) && partStart < start + s.left.Size()
    ensures c.None? ==> partHash == Root(h, data, partStart, PartShape(s, partStart - start))
    ensures c.Some? ==> Collides(h, c, ChainStrings(h, entries, chain, partHash), StreamStrings(h, data, start, s))
    decreases s, 0
  {
    var at, middle := partStart - start, start + s.left.Size();
    var l, r := Root(h, data, start, s.left), Root(h, data, middle, s.right);
    var turn, rest := Turn(true, Child(ident, false)), Chain(s.left, at, Child(ident, true));
    HalfStrings(h, data, start, s);
    TopStreamed(h, data, start, s, l + r);
    TopString(h, entries, turn, rest, partHash, Root(h, data, start, s));
    var inner, sibling := FoldUp(h, entries, rest, partHash).value, entries[turn.sibling];
    var below: Collision := None;
    if inner + sibling == l + r {
      SameHalves(inner, sibling, l, r);
      below := ChainCollision(h, data, start, s.left, at, Child(ident, true), entries, partHash);
      ChainSound(h, data, start, s.left, Child(ident, true), entries, partHash, partStart, partSize, rest, below);
    }
    LinkSound(h, c, below, inner + sibling, l + r, ChainStrings(h, entries, chain, partHash),
              ChainStrings(h, entries, rest, partHash), StreamStrings(h, data, start, s),
              StreamStrings(h, data, start, s.left));
  }

  lemma {:induction false} ChainRight(h: Hash, data: bytes, start: nat, s: Shape, ident: nat, entries: Entries,
                           partHash: bytes, partStart: nat, partSize: nat, chain: seq<Turn>, c: Collision)
    requires start + s.Size() <= |data| && Reaches(s, start, partStart, partSize)
    requires forall x :: x in entries ==> |entries[x]| <= 20
    requires |partHash| <= 20 && chain == Chain(s, partStart - start, ident)
    requires FoldUp(h, entries, chain, partHash) == Success(Root(h, data, start, s))
    requires c == ChainCollision(h, data, start, s, partStart - start, ident, entries, partHash)
    requires partStart + PartShape(s, partStart - start).Size() <= |data|
    requires !AtPart(s) && partStart >= start + s.left.Size()
    ensures c.None? ==> partHash == Root(h, data, partStart, PartShape(s, partStart - start))
    ensures c.Some? ==> Collides(h, c, ChainStrings(h, entries, chain, partHash), StreamStrings(h, data, start, s))
    decreases s, 0
  {
    var middle := start + s.left.Size();
    var at := partStart - middle;
    var l, r := Root(h, data, start, s.left), Root(h, data, middle, s.right);
    var turn, rest := Turn(false, Child(ident, true)), Chain(s.right, at, Child(ident, false));
    HalfStrings(h, data, start, s);
    TopStreamed(h, data, start, s, l + r);
    TopString(h, entries, turn, rest, partHash, Root(h, data, start, s));
    var inner, sibling := FoldUp(h, entries, rest, partHash).value, entries[turn.sibling];
    var below: Collision := None;
    if sibling + inner == l + r {
      SameHalves(sibling, inner, l, r);
      below := ChainCollision(h, data, middle, s.right, at, Child(ident, false), entries, partHash);
      ChainSound(h, data, middle, s.right, Child(ident, false), entries, partHash, partStart, partSize, rest, below);
    }
    LinkSound(h, c, below, sibling + inner, l + r, ChainStrings(h, entries, chain, partHash),
              ChainStrings(h, entries, rest, partHash), StreamStrings(h, data, start, s),
              StreamStrings(h, data, middle, s.right));
  }

  // ----- how the consumer fails -----

  lemma {:induction false} FoldUpFails(h: Hash, entries: Entries, chain: seq<Turn>, partHash: bytes)
    requires FoldUp(h, entries, chain, partHash).Failure?
    ensures FoldUp(h, entries, chain, partHash).error == AichError
  {
    if FoldUp(h, entries, chain[1..], partHash).Failure? {
      FoldUpFails(h, entries, chain[1..], partHash);
    }
  }

  lemma {:induction false} ReadEntriesFails(recovery: bytes, offset: nat, count: nat, width: nat, entries: Entries)
    requires ReadEntries(recovery, offset, count, width, entries).Failure?
    ensures ReadEntries(recovery, offset, count, width, entries).error == StructError
    decreases count
  {
    var ident := ReadInt(recovery, offset, width);
    if ident.Success? {
      var hash := Slice(recovery, offset + width, offset + width + 20);
      ReadEntriesFails(recovery, offset + width + 20, count - 1, width, entries[ident.value := hash]);
    }
  }

  lemma {:induction false} ParseFails(recovery: bytes)
    requires ParseSpec(recovery).Failure?
    ensures ParseSpec(recovery).error == StructError
  {
    var count16 := ReadInt(recovery, 0, 2);
    if count16.Success? {
      var small := ReadEntries(recovery, 2, count16.value, 2, map[]);
      if small.Failure? {
        ReadEntriesFails(recovery, 2, count16.value, 2, map[]);
      } else {
        var count32 := ReadInt(recovery, small.value.1, 2);
        if count32.Success? {
          ReadEntriesFails(recovery, small.value.1 + 2, count32.value, 4, small.value.0);
        }
      }
    }
  }

  /** Within one part the leaf count is right for every file size, so the part node
      always builds: after parsing, the consumer fails with AichError only. */
  lemma {:induction false} EntriesFail(h: Hash, entries: Entries, at: nat, fileSize: nat, master: bytes)
    requires StartsPart(fileSize, at) && VerifyEntries(h, entries, at, fileSize, master).Failure?
    ensures VerifyEntries(h, entries, at, fileSize, master).error == AichError
  {
    var part, idents := PartIdent(ShapeOf(fileSize, true), at, 1), PartLeafIdents(fileSize, at);
    if Lookup(entries, idents).Success? {
      var blocks, shape := Lookup(entries, idents).value, PartNodeShape(fileSize, at);
      LeafIdentsAgree(shape, PartSize(fileSize, at), part, IsLeft(part));
      ShapeCounted(PartSize(fileSize, at), IsLeft(part), true);
      EnoughLeaves(h, blocks, at, shape, IsLeft(part));
      var node := BuildTree(h, blocks, at, shape, IsLeft(part)).value;
      if FoldUp(h, entries, Chain(ShapeOf(fileSize, true), at, 1), node.hash).Failure? {
        FoldUpFails(h, entries, Chain(ShapeOf(fileSize, true), at, 1), node.hash);
      }
    }
  }

  /** For every file size, part index and blob the consumer never runs out of
      leaves; it fails with anything but AichError exactly when the part exists
      and the blob does not parse. */
  lemma {:induction false} ConsumerErrors(h: Hash, recovery: bytes, partIndex: int, fileSize: nat, master: bytes)
    ensures var r := VerifySpec(h, recovery, partIndex, fileSize, master);
            r.Failure? ==>
              && (r.error == AichError || r.error == StructError)
              && (r.error == StructError <==> 0 <= partIndex * PARTSIZE < fileSize && ParseSpec(recovery).Failure?)
  {
    var at := partIndex * PARTSIZE;
    if 0 <= at < fileSize {
      BlobFails(h, recovery, at, fileSize, master);
    }
  }

  lemma {:induction false} BlobFails(h: Hash, recovery: bytes, at: nat, fileSize: nat, master: bytes)
    requires StartsPart(fileSize, at)
    ensures var r := VerifyBlob(h, recovery, at, fileSize, master);
            r.Failure? ==> r.error == if ParseSpec(recovery).Failure? then StructError else AichError
  {
    var entries := ParseSpec(recovery);
    if entries.Failure? {
      ParseFails(recovery);
    } else if VerifyEntries(h, entries.value, at, fileSize, master).Failure? {
      EntriesFail(h, entries.value, at, fileSize, master);
    }
  }

  // ----- an accepted blob -----

  lemma {:induction false} HalfStrings(h: Hash, data: bytes, start: nat, s: Shape)
    requires start + s.Size() <= |data| && s.Split?
    ensures StreamStrings(h, data, start, s.left) <= StreamStrings(h, data, start, s)
    ensures StreamStrings(h, data, start + s.left.Size(), s.right) <= StreamStrings(h, data, start, s)
  {
  }

  lemma {:induction false} PartStrings(h: Hash, data: bytes, start: nat, s: Shape, partStart: nat, partSize: nat,
                                       part: Shape)
    requires start + s.Size() <= |data| && Reaches(s, start, partStart, partSize)
    requires part == PartShape(s, partStart - start)
    ensures partStart + part.Size() <= |data|
    ensures StreamStrings(h, data, partStart, part) <= StreamStrings(h, data, start, s)
    decreases s
  {
    if !AtPart(s) {
      HalfStrings(h, data, start, s);
      if partStart < start + s.left.Size() {
        PartStrings(h, data, start, s.left, partStart, partSize, part);
      } else {
        PartStrings(h, data, start + s.left.Size(), s.right, partStart, partSize, part);
      }
    }
  }

  function Master(h: Hash, data: bytes): (master: bytes)
    ensures |master| == 20
  {
    Root(h, data, 0, ShapeOf(|data|, true))
  }

  /** The part node rebuilt from the entries of an accepted blob. */
  function AcceptedNode(h: Hash, entries: Entries, at: nat, fileSize: nat, master: bytes): Node
    requires StartsPart(fileSize, at) && VerifyEntries(h, entries, at, fileSize, master).Success?
  {
    var part := PartIdent(ShapeOf(fileSize, true), at, 1);
    var blocks := Lookup(entries, PartLeafIdents(fileSize, at)).value;
    BuildTree(h, blocks, at, PartNodeShape(fileSize, at), IsLeft(part)).value
  }

  /** Every string the consumer hashed while authenticating the blob. */
  ghost function ConsumerStrings(h: Hash, entries: Entries, at: nat, fileSize: nat, master: bytes): set<bytes>
    requires StartsPart(fileSize, at) && VerifyEntries(h, entries, at, fileSize, master).Success?
  {
    var node := AcceptedNode(h, entries, at, fileSize, master);
    ChainStrings(h, entries, Chain(ShapeOf(fileSize, true), at, 1), node.hash) + TreeStrings(node)
  }

  function BlobCollision(h: Hash, data: bytes, at: nat, entries: Entries): Collision
    requires StartsPart(|data|, at) && VerifyEntries(h, entries, at, |data|, Master(h, data)).Success?
  {
    var node := AcceptedNode(h, entries, at, |data|, Master(h, data));
    OrElse(ChainCollision(h, data, 0, ShapeOf(|data|, true), at, 1, entries, node.hash),
           TreeCollision(h, data, at, PartNodeShape(|data|, at), node))
  }

  lemma {:induction false} LookupCounts(h: Hash, data: bytes, at: nat, entries: Entries)
    requires StartsPart(|data|, at) && Lookup(entries, PartLeafIdents(|data|, at)).Success?
    requires forall x :: x in entries ==> |entries[x]| <= 20
    ensures var blocks := Lookup(entries, PartLeafIdents(|data|, at)).value;
            && |blocks| == PartNodeShape(|data|, at).LeafCount()
            && Narrow(blocks)
  {
    var part := PartIdent(ShapeOf(|data|, true), at, 1);
    LeafIdentsAgree(PartNodeShape(|data|, at), PartSize(|data|, at), part, IsLeft(part));
  }

  /** What acceptance says of the part node. */
  lemma {:induction false} AcceptedHash(h: Hash, data: bytes, at: nat, entries: Entries, node: Node)
    requires StartsPart(|data|, at) && VerifyEntries(h, entries, at, |data|, Master(h, data)).Success?
    requires forall x :: x in entries ==> |entries[x]| <= 20
    requires node == AcceptedNode(h, entries, at, |data|, Master(h, data))
    ensures |node.hash| <= 20
    ensures FoldUp(h, entries, Chain(ShapeOf(|data|, true), at, 1), node.hash) == Success(Master(h, data))
  {
    var part := PartIdent(ShapeOf(|data|, true), at, 1);
    LookupCounts(h, data, at, entries);
    HashWidth(h, Lookup(entries, PartLeafIdents(|data|, at)).value, at, PartNodeShape(|data|, at), IsLeft(part));
  }

  lemma {:induction false} FoldedChain(h: Hash, data: bytes, at: nat, entries: Entries, partHash: bytes, s: Shape, c: Collision)
    requires StartsPart(|data|, at) && s == ShapeOf(|data|, true) && |partHash| <= 20
    requires forall x :: x in entries ==> |entries[x]| <= 20
    requires FoldUp(h, entries, Chain(s, at, 1), partHash) == Success(Root(h, data, 0, s))
    requires c == ChainCollision(h, data, 0, s, at, 1, entries, partHash)
    ensures c.None? ==> partHash == Root(h, data, at, PartNodeShape(|data|, at))
    ensures c.Some? ==> Collides(h, c, ChainStrings(h, entries, Chain(s, at, 1), partHash), StreamStrings(h, data, 0, s))
  {
    PartReached(|data|, at);
    ChainSound(h, data, 0, s, 1, entries, partHash, at, PartSize(|data|, at), Chain(s, at, 1), c);
  }

  lemma {:induction false} AcceptedChain(h: Hash, data: bytes, at: nat, entries: Entries, node: Node)
    requires StartsPart(|data|, at) && VerifyEntries(h, entries, at, |data|, Master(h, data)).Success?
    requires forall x :: x in entries ==> |entries[x]| <= 20
    requires node == AcceptedNode(h, entries, at, |data|, Master(h, data))
    ensures FoldUp(h, entries, Chain(ShapeOf(|data|, true), at, 1), node.hash) == Success(Master(h, data))
    ensures var c := ChainCollision(h, data, 0, ShapeOf(|data|, true), at, 1, entries, node.hash);
            && (c.None? ==> node.hash == Root(h, data, at, PartNodeShape(|data|, at)))
            && (c.Some? ==> Collides(h, c, ChainStrings(h, entries, Chain(ShapeOf(|data|, true), at, 1), node.hash),
                                     StreamStrings(h, data, 0, ShapeOf(|data|, true))))
  {
    AcceptedHash(h, data, at, entries, node);
    FoldedChain(h, data, at, entries, node.hash, ShapeOf(|data|, true),
                ChainCollision(h, data, 0, ShapeOf(|data|, true), at, 1, entries, node.hash));
  }

  lemma {:induction false} AcceptedTree(h: Hash, data: bytes, at: nat, entries: Entries, node: Node)
    requires StartsPart(|data|, at) && VerifyEntries(h, entries, at, |data|, Master(h, data)).Success?
    requires forall x :: x in entries ==> |entries[x]| <= 20
    requires node == AcceptedNode(h, entries, at, |data|, Master(h, data))
    requires node.hash == Root(h, data, at, PartNodeShape(|data|, at))
    ensures var c := TreeCollision(h, data, at, PartNodeShape(|data|, at), node);
            && (c.None? ==> Lookup(entries, PartLeafIdents(|data|, at)).value == PartLeaves(h, data, at))
            && (c.Some? ==> Collides(h, c, TreeStrings(node), StreamStrings(h, data, 0, ShapeOf(|data|, true))))
  {
    var shape, part := PartNodeShape(|data|, at), PartIdent(ShapeOf(|data|, true), at, 1);
    var blocks := Lookup(entries, PartLeafIdents(|data|, at)).value;
    LookupCounts(h, data, at, entries);
    ShapeCounted(PartSize(|data|, at), IsLeft(part), true);
    TreeSound(h, data, at, shape, blocks, IsLeft(part), node, TreeCollision(h, data, at, shape, node),
              TreeStrings(node), StreamStrings(h, data, at, shape));
    PartNodeStrings(h, data, at);
  }

  lemma {:induction false} PartNodeStrings(h: Hash, data: bytes, at: nat)
    requires StartsPart(|data|, at)
    ensures StreamStrings(h, data, at, PartNodeShape(|data|, at)) <= StreamStrings(h, data, 0, ShapeOf(|data|, true))
  {
    PartReached(|data|, at);
    PartStrings(h, data, 0, ShapeOf(|data|, true), at, PartSize(|data|, at), PartNodeShape(|data|, at));
  }

  lemma {:induction false} EntriesSound(h: Hash, data: bytes, at: nat, entries: Entries)
    requires StartsPart(|data|, at) && VerifyEntries(h, entries, at, |data|, Master(h, data)).Success?
    requires forall x :: x in entries ==> |entries[x]| <= 20
    ensures var c := BlobCollision(h, data, at, entries);
            && (c.None? ==> VerifyEntries(h, entries, at, |data|, Master(h, data)).value == PartLeaves(h, data, at))
            && (c.Some? ==> Collides(h, c, ConsumerStrings(h, entries, at, |data|, Master(h, data)),
                                     StreamStrings(h, data, 0, ShapeOf(|data|, true))))
  {
    var node := AcceptedNode(h, entries, at, |data|, Master(h, data));
    AcceptedChain(h, data, at, entries, node);
    if ChainCollision(h, data, 0, ShapeOf(|data|, true), at, 1, entries, node.hash).None? {
      AcceptedTree(h, data, at, entries, node);
    }
  }

  lemma {:induction false} ReadEntriesWidth(recovery: bytes, offset: nat, count: nat, width: nat, entries: Entries,
                                            all: Entries)
    requires forall x :: x in entries ==> |entries[x]| <= 20
    requires var r := ReadEntries(recovery, offset, count, width, entries); r.Success? && r.value.0 == all
    ensures forall x :: x in all ==> |all[x]| <= 20
    decreases count
  {
    if count > 0 {
      var hash := Slice(recovery, offset + width, offset + width + 20);
      ReadEntriesWidth(recovery, offset + width + 20, count - 1, width,
                       entries[ReadInt(recovery, offset, width).value := hash], all);
    }
  }

  lemma {:induction false} ParsedWidth(recovery: bytes)
    requires ParseSpec(recovery).Success?
    ensures forall x :: x in ParseSpec(recovery).value ==> |ParseSpec(recovery).value[x]| <= 20
  {
    var count16 := ReadInt(recovery, 0, 2).value;
    var small := ReadEntries(recovery, 2, count16, 2, map[]).value;
    ReadEntriesWidth(recovery, 2, count16, 2, map[], small.0);
    var count32 := ReadInt(recovery, small.1, 2).value;
    ReadEntriesWidth(recovery, small.1 + 2, count32, 4, small.0, ParseSpec(recovery).value);
  }

  /** Merkle soundness, for every file, part and blob: if the consumer accepts a
      blob against the file's master, the block hashes it returns are the streamed
      leaf hashes of that part, each the hash of one block of it; otherwise
      `BlobCollision` holds two different strings with one SHA-1, the first hashed
      by the consumer, the second by the streaming walk. */
  lemma {:induction false} MerkleSoundness(h: Hash, data: bytes, recovery: bytes, partIndex: int, at: int, blocks: seq<bytes>)
    requires at == partIndex * PARTSIZE
    requires VerifySpec(h, recovery, partIndex, |data|, Master(h, data)) == Success(blocks)
    ensures 0 <= at && StartsPart(|data|, at) && ParseSpec(recovery).Success?
    ensures VerifyEntries(h, ParseSpec(recovery).value, at, |data|, Master(h, data)) == Success(blocks)
    ensures var entries := ParseSpec(recovery).value;
            var c := BlobCollision(h, data, at, entries);
            && (c.None? ==> blocks == PartLeaves(h, data, at) && BlocksOf(h, data, at, blocks))
            && (c.Some? ==> Collides(h, c, ConsumerStrings(h, entries, at, |data|, Master(h, data)),
                                     StreamStrings(h, data, 0, ShapeOf(|data|, true))))
  {
    VerifiedFrom(h, recovery, partIndex, at, |data|, Master(h, data), blocks);
    ParsedWidth(recovery);
    EntriesSound(h, data, at, ParseSpec(recovery).value);
    PartLeavesAreBlocks(h, data, at);
  }

  lemma {:induction false} VerifiedFrom(h: Hash, recovery: bytes, partIndex: int, at: int, fileSize: nat, master: bytes,
                                        blocks: seq<bytes>)
    requires at == partIndex * PARTSIZE && VerifySpec(h, recovery, partIndex, fileSize, master) == Success(blocks)
    ensures 0 <= at && StartsPart(fileSize, at) && ParseSpec(recovery).Success?
    ensures VerifyEntries(h, ParseSpec(recovery).value, at, fileSize, master) == Success(blocks)
  {
    if 0 <= at < fileSize {
      PartStarts(partIndex, at, fileSize);
    }
    SpecIsBlob(h, recovery, partIndex, at, fileSize, master);
    BlobParsed(h, recovery, at, fileSize, master);
  }

  lemma {:induction false} SpecIsBlob(h: Hash, recovery: bytes, partIndex: int, at: int, fileSize: nat, master: bytes)
    requires at == partIndex * PARTSIZE && (0 <= at < fileSize ==> StartsPart(fileSize, at))
    ensures VerifySpec(h, recovery, partIndex, fileSize, master)
            == if 0 <= at < fileSize then VerifyBlob(h, recovery, at, fileSize, master) else Failure(AichError)
  {
  }

  lemma {:induction false} BlobParsed(h: Hash, recovery: bytes, at: nat, fileSize: nat, master: bytes)
    requires StartsPart(fileSize, at) && VerifyBlob(h, recovery, at, fileSize, master).Success?
    ensures ParseSpec(recovery).Success?
    ensures VerifyEntries(h, ParseSpec(recovery).value, at, fileSize, master) == VerifyBlob(h, recovery, at, fileSize, master)
  {
  }

  /** Digest j is the hash of block j of the part. */
  ghost predicate BlocksOf(h: Hash, data: bytes, at: nat, blocks: seq<bytes>)
    requires StartsPart(|data|, at)
  {
    var size := PartSize(|data|, at);
    && |blocks| == CeilDiv(size, BLOCKSIZE)
    && forall j :: 0 <= j < |blocks| ==> blocks[j] == Sha1(h, PartBlockBytes(data, at, size, j))
  }

  function PartBlockBytes(data: bytes, at: nat, size: nat, j: nat): bytes {
    Slice(data, at + j * BLOCKSIZE, Min(at + (j + 1) * BLOCKSIZE, at + size))
  }

  lemma {:induction false} PartLeavesAreBlocks(h: Hash, data: bytes, at: nat)
    requires StartsPart(|data|, at)
    ensures BlocksOf(h, data, at, PartLeaves(h, data, at))
  {
    var size, part := PartSize(|data|, at), PartIdent(ShapeOf(|data|, true), at, 1);
    SegmentBlocks(h, data, at, size, IsLeft(part));
  }

  lemma {:induction false} BlockSpan(at: nat, size: nat, isLeft: bool, j: nat)
    requires size <= PARTSIZE && j < |ShapeOf(size, isLeft).Spans(at)|
    ensures ShapeOf(size, isLeft).Spans(at)[j] == Span(at + j * BLOCKSIZE, Min(at + (j + 1) * BLOCKSIZE, at + size))
  {
    SpansAreFlat(at, size, isLeft);
    PartBlock(at, size, j);
  }

  lemma {:induction false} SegmentBlock(h: Hash, data: bytes, at: nat, size: nat, isLeft: bool, j: nat)
    requires at + size <= |data| && size <= PARTSIZE && j < |Leaves(h, data, at, ShapeOf(size, isLeft))|
    ensures Leaves(h, data, at, ShapeOf(size, isLeft))[j] == Sha1(h, PartBlockBytes(data, at, size, j))
  {
    LeavesHashSpans(h, data, at, ShapeOf(size, isLeft));
    BlockSpan(at, size, isLeft, j);
  }

  lemma {:induction false} SegmentBlocks(h: Hash, data: bytes, at: nat, size: nat, isLeft: bool)
    requires at + size <= |data| && size <= PARTSIZE
    ensures var leaves := Leaves(h, data, at, ShapeOf(size, isLeft));
            && |leaves| == CeilDiv(size, BLOCKSIZE)
            && forall j :: 0 <= j < |leaves| ==> leaves[j] == Sha1(h, PartBlockBytes(data, at, size, j))
  {
    LeafCountIsLength(h, data, at, ShapeOf(size, isLeft));
    ShapeLeafCount(size, isLeft);
    SmallBlockCount(size);
    forall j | 0 <= j < |Leaves(h, data, at, ShapeOf(size, isLeft))|
      ensures Leaves(h, data, at, ShapeOf(size, isLeft))[j] == Sha1(h, PartBlockBytes(data, at, size, j))
    {
      SegmentBlock(h, data, at, size, isLeft, j);
    }
  }

  lemma {:induction false} SmallBlockCount(size: nat)
    requires size <= PARTSIZE
    ensures BlockCount(size) == CeilDiv(size, BLOCKSIZE)
  {
  }

  /** Every leaf block is among the strings hashed. */
  lemma {:induction false} SpanHashed(h: Hash, data: bytes, start: nat, s: Shape, i: nat)
    requires start + s.Size() <= |data| && i < |s.Spans(start)|
    ensures Slice(data, s.Spans(start)[i].lo, s.Spans(start)[i].hi) in StreamStrings(h, data, start, s)
    decreases s
  {
    if s.Split? {
      var count := |s.left.Spans(start)|;
      if i < count {
        SpanHashed(h, data, start, s.left, i);
      } else {
        SpanHashed(h, data, start + s.left.Size(), s.right, i - count);
      }
    }
  }

  lemma {:induction false} BlockHashed(h: Hash, data: bytes, at: nat, size: nat, isLeft: bool, j: nat)
    requires at + size <= |data| && size <= PARTSIZE && j < CeilDiv(size, BLOCKSIZE)
    ensures PartBlockBytes(data, at, size, j) in StreamStrings(h, data, at, ShapeOf(size, isLeft))
  {
    PartSpanCount(at, size, isLeft);
    PartBlock(at, size, j);
    SpanHashed(h, data, at, ShapeOf(size, isLeft), j);
  }

  lemma {:induction false} PartSpanCount(at: nat, size: nat, isLeft: bool)
    requires size <= PARTSIZE
    ensures ShapeOf(size, isLeft).Spans(at) == PartSpans(at, size)
    ensures |PartSpans(at, size)| == CeilDiv(size, BLOCKSIZE)
  {
    SpansAreFlat(at, size, isLeft);
    SpansTile(ShapeOf(size, isLeft), at);
    ShapeLeafCount(size, isLeft);
    SmallBlockCount(size);
  }
}
