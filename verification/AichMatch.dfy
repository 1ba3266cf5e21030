/** What a match of the rebuilt master proves about the part bytes, and when. */
module AichMatch {
  import opened Base
  import opened AichTree
  import opened AichNodes
  import opened AichPath
  import opened AichRecovery
  import opened AichVerify
  import opened AichTheorems
  import opened AichSound
  import opened AichRebuild

  /** No ident of the walk is among the idents of an honest blob. */
  lemma {:induction false} WalkNotSent(size: nat, at: nat, idents: seq<nat>, x: nat)
    requires StartsPart(size, at) && x in PathIdents(ShapeOf(size, true), at, 1)
    requires idents == SiblingIdents(Chain(ShapeOf(size, true), at, 1)) + PartLeafIdents(size, at)
    ensures x !in idents
  {
    PathIdentifiers(size, at);
    WalkIdents(ShapeOf(size, true), at, 1);
  }

  lemma {:induction false} HonestMap(h: Hash, data: bytes, at: nat, entries: Entries)
    requires StartsPart(|data|, at) && entries == MapOf(HonestEntries(h, data, at), map[])
    ensures Carries(entries, SiblingEntries(h, data, 0, ShapeOf(|data|, true), at, 1))
    ensures forall x :: x in PathIdents(ShapeOf(|data|, true), at, 1) ==> x !in entries
  {
    var list := HonestEntries(h, data, at);
    HonestEntriesDistinct(h, data, at);
    MapOfDistinct(list, map[]);
    HonestParts(h, data, at, entries);
    forall x | x in PathIdents(ShapeOf(|data|, true), at, 1)
      ensures x !in entries
    {
      WalkNotSent(|data|, at, Idents(list), x);
    }
  }

  /** The rebuild accepts an honest responder's blob. */
  lemma {:induction false} RebuildFromHonestBlob(h: Hash, data: bytes, partIndex: int, at: int)
    requires at == partIndex * PARTSIZE && Answer(h, data, partIndex).Success?
    ensures 0 <= at && StartsPart(|data|, at)
    ensures RebuildSpec(h, data[at..at + PartSize(|data|, at)], partIndex, Answer(h, data, partIndex).value, |data|)
            == Success(Master(h, data))
  {
    HonestBlobParses(h, data, partIndex, at);
    var entries := MapOf(HonestEntries(h, data, at), map[]);
    HonestMap(h, data, at, entries);
    PathFree(entries, ShapeOf(|data|, true), at, 1);
    RebuildComplete(h, data, at, entries, data[at..at + PartSize(|data|, at)]);
    RebuildParsed(h, data[at..at + PartSize(|data|, at)], partIndex, at, Answer(h, data, partIndex).value, |data|, entries,
                  Master(h, data));
  }

  lemma {:induction false} RebuildParsed(h: Hash, partData: bytes, partIndex: int, at: nat, blob: bytes, fileSize: nat,
                                         entries: Entries, master: bytes)
    requires at == partIndex * PARTSIZE && StartsPart(fileSize, at) && |partData| == PartSize(fileSize, at)
    requires ParseSpec(blob) == Success(entries)
    requires RebuildEntries(h, partData, at, entries, fileSize) == Success(master)
    ensures RebuildSpec(h, partData, partIndex, blob, fileSize) == Success(master)
  {
  }

  lemma {:induction false} HonestBlobParses(h: Hash, data: bytes, partIndex: int, at: int)
    requires at == partIndex * PARTSIZE && Answer(h, data, partIndex).Success?
    ensures 0 <= at && StartsPart(|data|, at)
    ensures ParseSpec(Answer(h, data, partIndex).value) == Success(MapOf(HonestEntries(h, data, at), map[]))
  {
    HonestResponder(h, data, partIndex);
    HonestAnswer(h, data, partIndex, at);
    HonestEntriesDistinct(h, data, at);
    WireRoundTrip(HonestEntries(h, data, at), |data|);
  }

  // ----- with an entry in the place of the part, any part matches -----

  /** No node is empty. */
  ghost predicate Solid(s: Shape) {
    match s
    case Block(n) => n > 0
    case Split(l, r) => Solid(l) && Solid(r)
  }

  lemma {:induction false} ShapeIsSolid(s: Shape, size: nat, isLeft: bool)
    requires size > 0 && s == ShapeOf(size, isLeft)
    ensures Solid(s)
    decreases size
  {
    if size > BLOCKSIZE {
      var m := LeftSize(size, isLeft);
      ShapeSplits(size, isLeft, m, s);
      ShapeIsSolid(s.left, m, true);
      ShapeIsSolid(s.right, size - m, false);
    }
  }

  lemma {:induction false} SolidSize(s: Shape)
    requires Solid(s)
    ensures s.Size() > 0
    decreases s
  {
    if s.Split? {
      SolidSize(s.left);
      SolidSize(s.right);
    }
  }

  /** Off the part, the part's block hashes are not looked at. */
  lemma {:induction false} OffPart(h: Hash, entries: Entries, leaves: seq<bytes>, others: seq<bytes>, partStart: nat,
                                   partSize: nat, start: nat, s: Shape, ident: nat)
    requires Solid(s) && (start + s.Size() <= partStart || partStart + partSize <= start)
    ensures Resolve(h, entries, leaves, partStart, partSize, start, s, ident)
            == Resolve(h, entries, others, partStart, partSize, start, s, ident)
    decreases s
  {
    SolidSize(s);
    if s.Split? {
      OffPart(h, entries, leaves, others, partStart, partSize, start, s.left, Child(ident, true));
      OffPart(h, entries, leaves, others, partStart, partSize, start + s.left.Size(), s.right, Child(ident, false));
      FromHalves(h, entries, leaves, others, partStart, partSize, start, s, ident, start + s.left.Size());
    } else {
      OffBlock(h, entries, leaves, others, partStart, partSize, start, s.n, ident);
    }
  }

  lemma {:induction false} OffBlock(h: Hash, entries: Entries, leaves: seq<bytes>, others: seq<bytes>, partStart: nat,
                                    partSize: nat, start: nat, n: nat, ident: nat)
    requires n > 0 && (start + n <= partStart || partStart + partSize <= start)
    ensures Resolve(h, entries, leaves, partStart, partSize, start, Block(n), ident)
            == Resolve(h, entries, others, partStart, partSize, start, Block(n), ident)
  {
  }

  /** A node outside the part resolves from its entry or its halves alone. */
  lemma {:induction false} FromHalves(h: Hash, entries: Entries, leaves: seq<bytes>, others: seq<bytes>, partStart: nat,
                                      partSize: nat, start: nat, s: Shape, ident: nat, middle: nat)
    requires s.Split? && (start < partStart || partStart + partSize < start + s.Size()) && middle == start + s.left.Size()
    requires ident in entries
             || (Resolve(h, entries, leaves, partStart, partSize, start, s.left, Child(ident, true))
                 == Resolve(h, entries, others, partStart, partSize, start, s.left, Child(ident, true))
                 && Resolve(h, entries, leaves, partStart, partSize, middle, s.right, Child(ident, false))
                    == Resolve(h, entries, others, partStart, partSize, middle, s.right, Child(ident, false)))
    ensures Resolve(h, entries, leaves, partStart, partSize, start, s, ident)
            == Resolve(h, entries, others, partStart, partSize, start, s, ident)
  {
    ResolveOutside(h, entries, leaves, partStart, partSize, start, s.Size(), s, ident,
                   Resolve(h, entries, leaves, partStart, partSize, start, s.left, Child(ident, true)),
                   Resolve(h, entries, leaves, partStart, partSize, middle, s.right, Child(ident, false)));
    ResolveOutside(h, entries, others, partStart, partSize, start, s.Size(), s, ident,
                   Resolve(h, entries, others, partStart, partSize, start, s.left, Child(ident, true)),
                   Resolve(h, entries, others, partStart, partSize, middle, s.right, Child(ident, false)));
  }

  lemma {:induction false} ShadowHides(h: Hash, entries: Entries, leaves: seq<bytes>, others: seq<bytes>, partStart: nat,
                                       partSize: nat, start: nat, s: Shape, ident: nat)
    requires Reaches(s, start, partStart, partSize) && partSize <= PARTSIZE && Solid(s)
    requires Shadowed(entries, s, partStart - start, ident)
    ensures Resolve(h, entries, leaves, partStart, partSize, start, s, ident)
            == Resolve(h, entries, others, partStart, partSize, start, s, ident)
    decreases s
  {
    if !AtPart(s) {
      var middle := start + s.left.Size();
      if ident !in entries {
        if partStart < middle {
          ShadowHides(h, entries, leaves, others, partStart, partSize, start, s.left, Child(ident, true));
          ReachedInside(s.left, start, partStart, partSize);
          OffPart(h, entries, leaves, others, partStart, partSize, middle, s.right, Child(ident, false));
        } else {
          ShadowHides(h, entries, leaves, others, partStart, partSize, middle, s.right, Child(ident, false));
          OffPart(h, entries, leaves, others, partStart, partSize, start, s.left, Child(ident, true));
        }
      }
      FromHalves(h, entries, leaves, others, partStart, partSize, start, s, ident, middle);
    }
  }

  /** The source promises that a match proves the part bytes. It does not when an
      entry takes the place of the part: then all part bytes of the right length give
      the same result. */
  lemma {:induction false} ShadowedIgnoresPart(h: Hash, partData: bytes, other: bytes, at: nat, entries: Entries, fileSize: nat)
    requires StartsPart(fileSize, at) && ShadowedPart(entries, fileSize, at)
    requires |partData| == |other| == PartSize(fileSize, at)
    ensures RebuildEntries(h, partData, at, entries, fileSize) == RebuildEntries(h, other, at, entries, fileSize)
  {
    PartReached(fileSize, at);
    ShapeIsSolid(ShapeOf(fileSize, true), fileSize, true);
    ShadowHides(h, entries, DataLeaves(h, partData), DataLeaves(h, other), at, PartSize(fileSize, at), 0,
                ShapeOf(fileSize, true), 1);
  }

  // ----- otherwise a match proves the part -----

  /** Hashes of nodes, by start, shape and ident. */
  type Values = imap<(nat, Shape, nat), bytes>

  /** Along the walk, each node has the hash of its two halves. */
  ghost predicate Climbs(h: Hash, values: Values, partStart: nat, start: nat, s: Shape, ident: nat)
    decreases s
  {
    && (start, s, ident) in values
    && |values[(start, s, ident)]| <= 20
    && (!AtPart(s) ==>
          var middle := start + s.left.Size();
          var left, right := (start, s.left, Child(ident, true)), (middle, s.right, Child(ident, false));
          && left in values && right in values
          && |values[left]| <= 20 && |values[right]| <= 20
          && values[(start, s, ident)] == HashPair(h, values[left], values[right])
          && (partStart < middle ==> Climbs(h, values, partStart, start, s.left, Child(ident, true)))
          && (partStart >= middle ==> Climbs(h, values, partStart, middle, s.right, Child(ident, false))))
  }

  /** The string hashed at a node. */
  ghost function HashedAt(values: Values, start: nat, s: Shape, ident: nat): bytes
    requires s.Split?
  {
    var left, right := (start, s.left, Child(ident, true)), (start + s.left.Size(), s.right, Child(ident, false));
    if left in values && right in values then values[left] + values[right] else []
  }

  /** Where the walk first hashes another string than the streaming walk. */
  ghost function WalkCollision(h: Hash, data: bytes, values: Values, partStart: nat, start: nat, s: Shape, ident: nat): Collision
    requires start + s.Size() <= |data|
    decreases s
  {
    if AtPart(s) then None
    else
      var middle := start + s.left.Size();
      var ours, streamed := HashedAt(values, start, s, ident), Root(h, data, start, s.left) + Root(h, data, middle, s.right);
      if ours != streamed then Some((ours, streamed))
      else if partStart < middle then WalkCollision(h, data, values, partStart, start, s.left, Child(ident, true))
      else WalkCollision(h, data, values, partStart, middle, s.right, Child(ident, false))
  }

  ghost function WalkStrings(values: Values, partStart: nat, start: nat, s: Shape, ident: nat): set<bytes>
    decreases s
  {
    if AtPart(s) then {}
    else
      var middle := start + s.left.Size();
      {HashedAt(values, start, s, ident)}
      + if partStart < middle then WalkStrings(values, partStart, start, s.left, Child(ident, true))
        else WalkStrings(values, partStart, middle, s.right, Child(ident, false))
  }

  /** A walk that arrives at the streamed hash of its top node started from the
      streamed hash of the part, or hashed another string to a streamed hash. */
  lemma {:induction false} WalkSound(h: Hash, data: bytes, values: Values, partStart: nat, partSize: nat,
                                     start: nat, s: Shape, ident: nat, partNode: (nat, Shape, nat), c: Collision)
    requires start + s.Size() <= |data| && Reaches(s, start, partStart, partSize)
    requires Climbs(h, values, partStart, start, s, ident)
    requires values[(start, s, ident)] == Root(h, data, start, s)
    requires partNode == (partStart, PartShape(s, partStart - start), PartIdent(s, partStart - start, ident))
    requires c == WalkCollision(h, data, values, partStart, start, s, ident)
    ensures partNode in values && |values[partNode]| <= 20 && partStart + partNode.1.Size() <= |data|
    ensures c.None? ==> values[partNode] == Root(h, data, partStart, partNode.1)
    ensures c.Some? ==> Collides(h, c, WalkStrings(values, partStart, start, s, ident), StreamStrings(h, data, start, s))
    decreases s
  {
    if !AtPart(s) {
      var middle := start + s.left.Size();
      var l, r := values[(start, s.left, Child(ident, true))], values[(middle, s.right, Child(ident, false))];
      var left, right := Root(h, data, start, s.left), Root(h, data, middle, s.right);
      if l + r == left + right {
        SameHalves(l, r, left, right);
        if partStart < middle {
          WalkSound(h, data, values, partStart, partSize, start, s.left, Child(ident, true), partNode, c);
        } else {
          WalkSound(h, data, values, partStart, partSize, middle, s.right, Child(ident, false), partNode, c);
        }
      } else {
        ClimbsToPart(h, values, partStart, partSize, start, s, ident);
        ReachedInside(s, start, partStart, partSize);
        ReachedPart(s, start, partStart, partSize);
      }
    }
  }

  lemma {:induction false} ClimbsToPart(h: Hash, values: Values, partStart: nat, partSize: nat, start: nat, s: Shape, ident: nat)
    requires Reaches(s, start, partStart, partSize) && Climbs(h, values, partStart, start, s, ident)
    ensures var part := (partStart, PartShape(s, partStart - start), PartIdent(s, partStart - start, ident));
            part in values && |values[part]| <= 20
    decreases s
  {
    if !AtPart(s) {
      if partStart < start + s.left.Size() {
        ClimbsToPart(h, values, partStart, partSize, start, s.left, Child(ident, true));
      } else {
        ClimbsToPart(h, values, partStart, partSize, start + s.left.Size(), s.right, Child(ident, false));
      }
    }
  }

  // ----- the rebuild is such a walk -----

  predicate Resolved(r: Result<Option<bytes>, Error>) {
    r.Success? && r.value.Some?
  }

  ghost function ResolvedValues(h: Hash, entries: Entries, leaves: seq<bytes>, partStart: nat, partSize: nat): Values {
    imap k: (nat, Shape, nat) | Resolved(Resolve(h, entries, leaves, partStart, partSize, k.0, k.1, k.2))
      :: Resolve(h, entries, leaves, partStart, partSize, k.0, k.1, k.2).value.value
  }

  /** Above the part, a resolved node without an entry is the hash of its halves. */
  lemma {:induction false} ResolvedHalves(h: Hash, entries: Entries, leaves: seq<bytes>, partStart: nat, partSize: nat,
                       start: nat, s: Shape, ident: nat)
    requires !AtPart(s) && s.Size() > partSize && ident !in entries
    requires Resolved(Resolve(h, entries, leaves, partStart, partSize, start, s, ident))
    ensures var left := Resolve(h, entries, leaves, partStart, partSize, start, s.left, Child(ident, true));
            var right := Resolve(h, entries, leaves, partStart, partSize, start + s.left.Size(), s.right, Child(ident, false));
            && Resolved(left) && Resolved(right)
            && Resolve(h, entries, leaves, partStart, partSize, start, s, ident).value.value
               == HashPair(h, left.value.value, right.value.value)
  {
  }

  lemma {:induction false} ResolvedWidth(h: Hash, entries: Entries, leaves: seq<bytes>, partStart: nat, partSize: nat,
                                         start: nat, s: Shape, ident: nat)
    requires Short(entries, leaves) && Resolved(Resolve(h, entries, leaves, partStart, partSize, start, s, ident))
    ensures |Resolve(h, entries, leaves, partStart, partSize, start, s, ident).value.value| <= 20
  {
    if start >= partStart && start + s.Size() <= partStart + partSize {
      var rel := start - partStart;
      HashWidth(h, Slice(leaves, rel / BLOCKSIZE, (rel + s.Size() + BLOCKSIZE - 1) / BLOCKSIZE), start, s, IsLeft(ident));
    }
  }

  ghost predicate Short(entries: Entries, leaves: seq<bytes>) {
    (forall x :: x in entries ==> |entries[x]| <= 20) && Narrow(leaves)
  }

  /** `values` records the outcome r at node k. */
  predicate Records(values: Values, k: (nat, Shape, nat), r: Result<Option<bytes>, Error>) {
    (k in values <==> Resolved(r)) && (Resolved(r) ==> values[k] == r.value.value && |r.value.value| <= 20)
  }

  ghost predicate RecordsAll(values: Values, h: Hash, entries: Entries, leaves: seq<bytes>, partStart: nat, partSize: nat) {
    forall start, s, ident ::
      Records(values, (start, s, ident), Resolve(h, entries, leaves, partStart, partSize, start, s, ident))
  }

  lemma {:induction false} ResolvedRecords(h: Hash, entries: Entries, leaves: seq<bytes>, partStart: nat, partSize: nat, values: Values)
    requires Short(entries, leaves) && values == ResolvedValues(h, entries, leaves, partStart, partSize)
    ensures RecordsAll(values, h, entries, leaves, partStart, partSize)
  {
    forall start, s, ident
      ensures Records(values, (start, s, ident), Resolve(h, entries, leaves, partStart, partSize, start, s, ident))
    {
      if Resolved(Resolve(h, entries, leaves, partStart, partSize, start, s, ident)) {
        ResolvedWidth(h, entries, leaves, partStart, partSize, start, s, ident);
      }
    }
  }

  lemma {:induction false} ResolvedStep(h: Hash, entries: Entries, leaves: seq<bytes>, partStart: nat, partSize: nat,
                     start: nat, s: Shape, ident: nat, values: Values)
    requires RecordsAll(values, h, entries, leaves, partStart, partSize)
    requires (start, s, ident) in values && !AtPart(s) && s.Size() > partSize && ident !in entries
    ensures var l, r := (start, s.left, Child(ident, true)), (start + s.left.Size(), s.right, Child(ident, false));
            && l in values && r in values
            && |values[l]| <= 20 && |values[r]| <= 20
            && values[(start, s, ident)] == HashPair(h, values[l], values[r])
  {
    assert Records(values, (start, s, ident), Resolve(h, entries, leaves, partStart, partSize, start, s, ident));
    ResolvedHalves(h, entries, leaves, partStart, partSize, start, s, ident);
  }

  lemma {:induction false} RebuildClimbs(h: Hash, entries: Entries, leaves: seq<bytes>, partStart: nat, partSize: nat,
                                         start: nat, s: Shape, ident: nat, values: Values)
    requires Reaches(s, start, partStart, partSize) && partSize <= PARTSIZE
    requires RecordsAll(values, h, entries, leaves, partStart, partSize)
    requires !Shadowed(entries, s, partStart - start, ident)
    requires (start, s, ident) in values && |values[(start, s, ident)]| <= 20
    ensures Climbs(h, values, partStart, start, s, ident)
    decreases s
  {
    if !AtPart(s) {
      ResolvedStep(h, entries, leaves, partStart, partSize, start, s, ident, values);
      if partStart < start + s.left.Size() {
        RebuildClimbs(h, entries, leaves, partStart, partSize, start, s.left, Child(ident, true), values);
      } else {
        RebuildClimbs(h, entries, leaves, partStart, partSize, start + s.left.Size(), s.right, Child(ident, false), values);
      }
    }
  }

  // ----- a match proves the part -----

  /** Equal leaf lists of unequal parts: some block collides. */
  ghost function BlockCollision(data: bytes, at: nat, partData: bytes): Collision {
    var size := |partData|;
    if exists j :: 0 <= j < CeilDiv(size, BLOCKSIZE) && BlocksDiffer(data, at, partData, j) then
      var j :| 0 <= j < CeilDiv(size, BLOCKSIZE) && BlocksDiffer(data, at, partData, j);
      Some((PartBlockBytes(partData, 0, size, j), PartBlockBytes(data, at, size, j)))
    else None
  }

  ghost predicate BlocksDiffer(data: bytes, at: nat, partData: bytes, j: nat) {
    PartBlockBytes(partData, 0, |partData|, j) != PartBlockBytes(data, at, |partData|, j)
  }

  lemma {:induction false} SameBlocksSamePart(data: bytes, at: nat, partData: bytes)
    requires at + |partData| <= |data| && |partData| <= PARTSIZE
    requires BlockCollision(data, at, partData).None?
    ensures partData == data[at..at + |partData|]
  {
    forall i | 0 <= i < |partData|
      ensures partData[i] == data[at + i]
    {
      var j := i / BLOCKSIZE;
      assert !BlocksDiffer(data, at, partData, j);
      assert PartBlockBytes(partData, 0, |partData|, j)[i - j * BLOCKSIZE] == partData[i];
      assert PartBlockBytes(data, at, |partData|, j)[i - j * BLOCKSIZE] == data[at + i];
    }
  }

  lemma {:induction false} SameLeavesSamePart(h: Hash, data: bytes, at: nat, partData: bytes)
    requires StartsPart(|data|, at) && |partData| == PartSize(|data|, at)
    requires DataLeaves(h, partData) == PartLeaves(h, data, at)
    ensures var c := BlockCollision(data, at, partData);
            && (c.None? ==> partData == data[at..at + |partData|])
            && (c.Some? ==> Collides(h, c, StreamStrings(h, partData, 0, ShapeOf(|partData|, true)),
                                     StreamStrings(h, data, 0, ShapeOf(|data|, true))))
  {
    if BlockCollision(data, at, partData).None? {
      SameBlocksSamePart(data, at, partData);
    } else {
      var size, isLeft := |partData|, IsLeft(PartIdent(ShapeOf(|data|, true), at, 1));
      forall j | 0 <= j < CeilDiv(size, BLOCKSIZE)
        ensures PartBlockBytes(partData, 0, size, j) in StreamStrings(h, partData, 0, ShapeOf(size, true))
        ensures PartBlockBytes(data, at, size, j) in StreamStrings(h, data, 0, ShapeOf(|data|, true))
        ensures Sha1(h, PartBlockBytes(partData, 0, size, j)) == Sha1(h, PartBlockBytes(data, at, size, j))
      {
        BlockHashed(h, partData, 0, size, true, j);
        BlockHashed(h, data, at, size, isLeft, j);
        PartNodeStrings(h, data, at);
        SegmentLeafCount(h, partData, 0, size, true);
        SegmentBlock(h, partData, 0, size, true, j);
        SegmentBlock(h, data, at, size, isLeft, j);
      }
    }
  }

  lemma {:induction false} PartNodeBuilds(h: Hash, data: bytes, at: nat, partData: bytes, entries: Entries)
    requires StartsPart(|data|, at) && |partData| == PartSize(|data|, at)
    requires PartIdent(ShapeOf(|data|, true), at, 1) !in entries || |partData| > BLOCKSIZE
    ensures var part, shape := PartIdent(ShapeOf(|data|, true), at, 1), PartNodeShape(|data|, at);
            var node := BuildTree(h, DataLeaves(h, partData), at, shape, IsLeft(part));
            && |DataLeaves(h, partData)| == shape.LeafCount() && Counted(shape, true)
            && node.Success?
            && Resolve(h, entries, DataLeaves(h, partData), at, |partData|, at, shape, part) == Success(Some(node.value.hash))
  {
    var part, shape := PartIdent(ShapeOf(|data|, true), at, 1), PartNodeShape(|data|, at);
    SegmentLeafCount(h, partData, 0, |partData|, true);
    SegmentLeafCount(h, data, at, |partData|, IsLeft(part));
    ShapeCounted(|partData|, IsLeft(part), true);
    EnoughLeaves(h, DataLeaves(h, partData), at, shape, IsLeft(part));
    ResolvePartNode(h, entries, DataLeaves(h, partData), at, |partData|, shape, part);
  }

  /** The part node the rebuild builds from the part bytes. */
  ghost function PartTree(h: Hash, fileSize: nat, at: nat, partData: bytes): Result<Node, Error>
    requires StartsPart(fileSize, at)
  {
    BuildTree(h, DataLeaves(h, partData), at, PartNodeShape(fileSize, at), IsLeft(PartIdent(ShapeOf(fileSize, true), at, 1)))
  }

  ghost function RebuildValues(h: Hash, data: bytes, at: nat, partData: bytes, entries: Entries): Values {
    ResolvedValues(h, entries, DataLeaves(h, partData), at, |partData|)
  }

  /** On the way up, inside the part, or in one of its blocks. */
  ghost function MatchCollision(h: Hash, data: bytes, at: nat, partData: bytes, entries: Entries): Collision
    requires StartsPart(|data|, at)
  {
    var up := WalkCollision(h, data, RebuildValues(h, data, at, partData, entries), at, 0, ShapeOf(|data|, true), 1);
    var node := PartTree(h, |data|, at, partData);
    var inside := if node.Success? then TreeCollision(h, data, at, PartNodeShape(|data|, at), node.value) else None;
    OrElse(up, OrElse(inside, BlockCollision(data, at, partData)))
  }

  /** Every string the rebuild hashes. */
  ghost function RebuildStrings(h: Hash, data: bytes, at: nat, partData: bytes, entries: Entries): set<bytes>
    requires StartsPart(|data|, at)
  {
    var node := PartTree(h, |data|, at, partData);
    WalkStrings(RebuildValues(h, data, at, partData, entries), at, 0, ShapeOf(|data|, true), 1)
    + (if node.Success? then TreeStrings(node.value) else {})
    + StreamStrings(h, partData, 0, ShapeOf(|partData|, true))
  }

  lemma {:induction false} MatchClimbs(h: Hash, data: bytes, at: nat, partData: bytes, entries: Entries, values: Values)
    requires StartsPart(|data|, at) && |partData| == PartSize(|data|, at)
    requires forall x :: x in entries ==> |entries[x]| <= 20
    requires !ShadowedPart(entries, |data|, at)
    requires RebuildEntries(h, partData, at, entries, |data|) == Success(Master(h, data))
    requires values == RebuildValues(h, data, at, partData, entries)
    ensures Climbs(h, values, at, 0, ShapeOf(|data|, true), 1)
    ensures values[(0, ShapeOf(|data|, true), 1)] == Master(h, data)
  {
    LeavesAreDigests(h, partData, 0, ShapeOf(|partData|, true));
    PartReached(|data|, at);
    ResolvedRecords(h, entries, DataLeaves(h, partData), at, |partData|, values);
    TopClimbs(h, entries, DataLeaves(h, partData), at, |partData|, ShapeOf(|data|, true), values, Master(h, data));
  }

  lemma {:induction false} TopClimbs(h: Hash, entries: Entries, leaves: seq<bytes>, at: nat, size: nat, s: Shape, values: Values, master: bytes)
    requires Reaches(s, 0, at, size) && size <= PARTSIZE && !Shadowed(entries, s, at, 1)
    requires RecordsAll(values, h, entries, leaves, at, size)
    requires Resolve(h, entries, leaves, at, size, 0, s, 1) == Success(Some(master))
    ensures Climbs(h, values, at, 0, s, 1) && values[(0, s, 1)] == master
  {
    assert Records(values, (0, s, 1), Resolve(h, entries, leaves, at, size, 0, s, 1));
    RebuildClimbs(h, entries, leaves, at, size, 0, s, 1, values);
  }

  lemma {:induction false} MatchPartValue(h: Hash, data: bytes, at: nat, partData: bytes, entries: Entries, values: Values, node: Node)
    requires StartsPart(|data|, at) && |partData| == PartSize(|data|, at)
    requires forall x :: x in entries ==> |entries[x]| <= 20
    requires PartIdent(ShapeOf(|data|, true), at, 1) !in entries || |partData| > BLOCKSIZE
    requires values == RebuildValues(h, data, at, partData, entries)
    requires PartTree(h, |data|, at, partData) == Success(node)
    ensures var part := (at, PartNodeShape(|data|, at), PartIdent(ShapeOf(|data|, true), at, 1));
            part in values && values[part] == node.hash
  {
    var part, shape := PartIdent(ShapeOf(|data|, true), at, 1), PartNodeShape(|data|, at);
    LeavesAreDigests(h, partData, 0, ShapeOf(|partData|, true));
    PartNodeBuilds(h, data, at, partData, entries);
    ResolvedRecords(h, entries, DataLeaves(h, partData), at, |partData|, values);
    assert Records(values, (at, shape, part), Resolve(h, entries, DataLeaves(h, partData), at, |partData|, at, shape, part));
  }

  lemma {:induction false} MatchWalk(h: Hash, data: bytes, at: nat, partData: bytes, entries: Entries, values: Values, node: Node,
                  s: Shape, part: (nat, Shape, nat), c: Collision)
    requires StartsPart(|data|, at) && |partData| == PartSize(|data|, at)
    requires s == ShapeOf(|data|, true)
    requires Climbs(h, values, at, 0, s, 1) && values[(0, s, 1)] == Root(h, data, 0, s)
    requires part == (at, PartNodeShape(|data|, at), PartIdent(s, at, 1))
    requires part in values && values[part] == node.hash
    requires c == WalkCollision(h, data, values, at, 0, s, 1)
    ensures c.None? ==> node.hash == Root(h, data, at, part.1)
    ensures c.Some? ==> Collides(h, c, WalkStrings(values, at, 0, s, 1), StreamStrings(h, data, 0, s))
  {
    PartReached(|data|, at);
    WalkSound(h, data, values, at, |partData|, 0, s, 1, part, c);
  }

  lemma {:induction false} MatchTree(h: Hash, data: bytes, at: nat, partData: bytes, node: Node)
    requires StartsPart(|data|, at) && |partData| == PartSize(|data|, at)
    requires PartTree(h, |data|, at, partData) == Success(node)
    requires |DataLeaves(h, partData)| == PartNodeShape(|data|, at).LeafCount() && Counted(PartNodeShape(|data|, at), true)
    requires node.hash == Root(h, data, at, PartNodeShape(|data|, at))
    ensures var c := TreeCollision(h, data, at, PartNodeShape(|data|, at), node);
            && (c.None? ==> DataLeaves(h, partData) == PartLeaves(h, data, at))
            && (c.Some? ==> Collides(h, c, TreeStrings(node), StreamStrings(h, data, 0, ShapeOf(|data|, true))))
  {
    LeavesAreDigests(h, partData, 0, ShapeOf(|partData|, true));
    TreeSound(h, data, at, PartNodeShape(|data|, at), DataLeaves(h, partData),
              IsLeft(PartIdent(ShapeOf(|data|, true), at, 1)), node, TreeCollision(h, data, at, PartNodeShape(|data|, at), node),
              TreeStrings(node), StreamStrings(h, data, at, PartNodeShape(|data|, at)));
    PartNodeStrings(h, data, at);
  }

  /** A match proves the part bytes, for every file, part and blob, unless an entry
      takes the place of the part: then the part bytes are the ones behind the
      master, or two different strings that were hashed, one by the rebuild and one by
      the streaming walk, have the same SHA-1. */
  lemma {:induction false} MatchProvesPart(h: Hash, data: bytes, at: nat, partData: bytes, entries: Entries)
    requires StartsPart(|data|, at) && |partData| == PartSize(|data|, at)
    requires forall x :: x in entries ==> |entries[x]| <= 20
    requires !ShadowedPart(entries, |data|, at)
    requires RebuildEntries(h, partData, at, entries, |data|) == Success(Master(h, data))
    ensures var c := MatchCollision(h, data, at, partData, entries);
            && (c.None? ==> partData == data[at..at + |partData|])
            && (c.Some? ==> Collides(h, c, RebuildStrings(h, data, at, partData, entries),
                                     StreamStrings(h, data, 0, ShapeOf(|data|, true))))
  {
    PartNodeUnshadowed(entries, |data|, at);
    PartNodeBuilds(h, data, at, partData, entries);
    var node := PartTree(h, |data|, at, partData).value;
    var values := RebuildValues(h, data, at, partData, entries);
    var s := ShapeOf(|data|, true);
    MatchClimbs(h, data, at, partData, entries, values);
    MatchPartValue(h, data, at, partData, entries, values, node);
    MatchWalk(h, data, at, partData, entries, values, node, s, (at, PartNodeShape(|data|, at), PartIdent(s, at, 1)),
              WalkCollision(h, data, values, at, 0, s, 1));
    if WalkCollision(h, data, values, at, 0, ShapeOf(|data|, true), 1).None? {
      MatchTree(h, data, at, partData, node);
      if TreeCollision(h, data, at, PartNodeShape(|data|, at), node).None? {
        SameLeavesSamePart(h, data, at, partData);
      }
    }
  }

  /** Every part that matches is the true one, or a collision is at hand. */
  ghost predicate MatchesProve(h: Hash, data: bytes, at: nat, entries: Entries)
    requires StartsPart(|data|, at)
  {
    forall p: bytes ::
      |p| == PartSize(|data|, at) && RebuildEntries(h, p, at, entries, |data|) == Success(Master(h, data)) ==>
        || p == data[at..at + |p|]
        || Collides(h, MatchCollision(h, data, at, p, entries), RebuildStrings(h, data, at, p, entries),
                    StreamStrings(h, data, 0, ShapeOf(|data|, true)))
  }

  /** Exactly when: once anything matches, a match proves the part unless an entry
      takes its place, and then every part of the right length matches. */
  lemma {:induction false} MatchProvesIff(h: Hash, data: bytes, at: nat, entries: Entries, matching: bytes)
    requires StartsPart(|data|, at) && |matching| == PartSize(|data|, at)
    requires forall x :: x in entries ==> |entries[x]| <= 20
    requires RebuildEntries(h, matching, at, entries, |data|) == Success(Master(h, data))
    ensures !ShadowedPart(entries, |data|, at) ==> MatchesProve(h, data, at, entries)
    ensures ShadowedPart(entries, |data|, at) ==> forall p: bytes :: |p| == |matching| ==>
              RebuildEntries(h, p, at, entries, |data|) == Success(Master(h, data))
  {
    if ShadowedPart(entries, |data|, at) {
      forall p: bytes | |p| == |matching|
        ensures RebuildEntries(h, p, at, entries, |data|) == Success(Master(h, data))
      {
        ShadowedIgnoresPart(h, matching, p, at, entries, |data|);
      }
    } else {
      forall p: bytes | |p| == PartSize(|data|, at) && RebuildEntries(h, p, at, entries, |data|) == Success(Master(h, data))
        ensures || p == data[at..at + |p|]
                || Collides(h, MatchCollision(h, data, at, p, entries), RebuildStrings(h, data, at, p, entries),
                            StreamStrings(h, data, 0, ShapeOf(|data|, true)))
      {
        MatchProvesPart(h, data, at, p, entries);
      }
    }
  }

  // ----- a blob under which any part matches -----

  /** One entry, for the root. */
  function RootBlob(h: Hash, data: bytes): Result<bytes, Error> {
    SerializeEntries([Entry(1, Master(h, data))], |data|)
  }

  lemma {:induction false} RootBlobParses(h: Hash, data: bytes)
    ensures RootBlob(h, data).Success?
    ensures ParseSpec(RootBlob(h, data).value) == Success(map[1 := Master(h, data)])
  {
    var e := Entry(1, Master(h, data));
    WireRoundTrip([e], |data|);
    MapFirst([e], map[], e, []);
  }

  lemma {:induction false} RootEntryResolves(h: Hash, entries: Entries, leaves: seq<bytes>, at: nat, size: nat, s: Shape)
    requires 1 in entries && (s.Size() > at + size || at > 0 || s.Size() <= BLOCKSIZE)
    ensures Resolve(h, entries, leaves, at, size, 0, s, 1) == Success(Some(entries[1]))
  {
  }

  /** In a file of more than one part, or of one block, an entry for the root makes
      every part match. The audit of a finished download asks for part 0. */
  lemma {:induction false} RootBlobMatchesAll(h: Hash, data: bytes, partIndex: int, at: nat, p: bytes)
    requires at == partIndex * PARTSIZE && StartsPart(|data|, at) && |p| == PartSize(|data|, at)
    requires |data| > PARTSIZE || |data| <= BLOCKSIZE
    ensures RootBlob(h, data).Success?
    ensures RebuildSpec(h, p, partIndex, RootBlob(h, data).value, |data|) == Success(Master(h, data))
  {
    var entries: Entries := map[1 := Master(h, data)];
    RootBlobParses(h, data);
    RootEntryResolves(h, entries, DataLeaves(h, p), at, |p|, ShapeOf(|data|, true));
    RebuildParsed(h, p, partIndex, at, RootBlob(h, data).value, |data|, entries, Master(h, data));
  }

  /** Only in those files is there any blob whose entries take the place of a part. */
  lemma {:induction false} CanBeShadowedIff(fileSize: nat, at: nat)
    requires StartsPart(fileSize, at)
    ensures (exists entries: Entries :: ShadowedPart(entries, fileSize, at)) <==> fileSize > PARTSIZE || fileSize <= BLOCKSIZE
  {
    var entries: Entries := map[1 := []];
    assert ShadowedPart(entries, fileSize, at) <==> fileSize > PARTSIZE || fileSize <= BLOCKSIZE;
  }

  // ----- errors -----

  lemma {:induction false} OffPartResolves(h: Hash, entries: Entries, leaves: seq<bytes>, partStart: nat, partSize: nat,
                                           start: nat, s: Shape, ident: nat)
    requires Solid(s) && (start + s.Size() <= partStart || partStart + partSize <= start)
    ensures Resolve(h, entries, leaves, partStart, partSize, start, s, ident).Success?
    decreases s
  {
    SolidSize(s);
    if s.Split? {
      OffPartResolves(h, entries, leaves, partStart, partSize, start, s.left, Child(ident, true));
      OffPartResolves(h, entries, leaves, partStart, partSize, start + s.left.Size(), s.right, Child(ident, false));
      HalvesResolve(h, entries, leaves, partStart, partSize, start, s, ident, start + s.left.Size());
    }
  }

  lemma {:induction false} HalvesResolve(h: Hash, entries: Entries, leaves: seq<bytes>, partStart: nat, partSize: nat,
                                         start: nat, s: Shape, ident: nat, middle: nat)
    requires s.Split? && (start < partStart || partStart + partSize < start + s.Size()) && middle == start + s.left.Size()
    requires Resolve(h, entries, leaves, partStart, partSize, start, s.left, Child(ident, true)).Success?
    requires Resolve(h, entries, leaves, partStart, partSize, middle, s.right, Child(ident, false)).Success?
    ensures Resolve(h, entries, leaves, partStart, partSize, start, s, ident).Success?
  {
    ResolveOutside(h, entries, leaves, partStart, partSize, start, s.Size(), s, ident,
                   Resolve(h, entries, leaves, partStart, partSize, start, s.left, Child(ident, true)),
                   Resolve(h, entries, leaves, partStart, partSize, middle, s.right, Child(ident, false)));
  }

  lemma {:induction false} WalkResolves(h: Hash, entries: Entries, leaves: seq<bytes>, partStart: nat, partSize: nat,
                                        start: nat, s: Shape, ident: nat)
    requires Reaches(s, start, partStart, partSize) && partSize <= PARTSIZE && Solid(s)
    requires Resolve(h, entries, leaves, partStart, partSize, partStart, PartShape(s, partStart - start),
                     PartIdent(s, partStart - start, ident)).Success?
    ensures Resolve(h, entries, leaves, partStart, partSize, start, s, ident).Success?
    decreases s
  {
    if !AtPart(s) {
      var middle := start + s.left.Size();
      if partStart < middle {
        WalkResolves(h, entries, leaves, partStart, partSize, start, s.left, Child(ident, true));
        ReachedInside(s.left, start, partStart, partSize);
        OffPartResolves(h, entries, leaves, partStart, partSize, middle, s.right, Child(ident, false));
      } else {
        WalkResolves(h, entries, leaves, partStart, partSize, middle, s.right, Child(ident, false));
        OffPartResolves(h, entries, leaves, partStart, partSize, start, s.left, Child(ident, true));
      }
      HalvesResolve(h, entries, leaves, partStart, partSize, start, s, ident, middle);
    }
  }

  lemma {:induction false} PartDataResolves(h: Hash, entries: Entries, partData: bytes, at: nat, fileSize: nat)
    requires StartsPart(fileSize, at) && |partData| == PartSize(fileSize, at)
    ensures Resolve(h, entries, DataLeaves(h, partData), at, |partData|, at, PartNodeShape(fileSize, at),
                    PartIdent(ShapeOf(fileSize, true), at, 1)).Success?
  {
    var part, shape := PartIdent(ShapeOf(fileSize, true), at, 1), PartNodeShape(fileSize, at);
    if part !in entries || |partData| > BLOCKSIZE {
      SegmentLeafCount(h, partData, 0, |partData|, true);
      ShapeLeafCount(|partData|, IsLeft(part));
      SmallBlockCount(|partData|);
      ShapeCounted(|partData|, IsLeft(part), true);
      EnoughLeaves(h, DataLeaves(h, partData), at, shape, IsLeft(part));
      ResolvePartNode(h, entries, DataLeaves(h, partData), at, |partData|, shape, part);
    }
  }

  lemma {:induction false} EntriesRebuild(h: Hash, partData: bytes, at: nat, entries: Entries, fileSize: nat)
    requires StartsPart(fileSize, at) && |partData| == PartSize(fileSize, at)
    ensures var r := RebuildEntries(h, partData, at, entries, fileSize);
            r.Failure? ==> r.error == AichError
  {
    PartDataResolves(h, entries, partData, at, fileSize);
    PartReached(fileSize, at);
    ShapeIsSolid(ShapeOf(fileSize, true), fileSize, true);
    WalkResolves(h, entries, DataLeaves(h, partData), at, |partData|, 0, ShapeOf(fileSize, true), 1);
  }

  /** The rebuild never runs out of leaves either; it refuses what is not a part, and
      fails otherwise than by AichError exactly when the blob does not parse. */
  lemma {:induction false} RebuildErrors(h: Hash, partData: bytes, partIndex: int, recovery: bytes, fileSize: nat)
    ensures var r, at := RebuildSpec(h, partData, partIndex, recovery, fileSize), partIndex * PARTSIZE;
            var isPart := 0 <= at < fileSize && |partData| == Min(PARTSIZE, fileSize - at);
            && (!isPart ==> r == Failure(AichError))
            && (r.Failure? ==> r.error == if isPart && ParseSpec(recovery).Failure? then StructError else AichError)
  {
    var at := partIndex * PARTSIZE;
    if 0 <= at < fileSize && |partData| == PartSize(fileSize, at) {
      PartStarts(partIndex, at, fileSize);
      if ParseSpec(recovery).Failure? {
        ParseFails(recovery);
      } else {
        EntriesRebuild(h, partData, at, ParseSpec(recovery).value, fileSize);
      }
    }
  }
}
