/** Recovery data: what the responder sends for one part, its wire form, and the
    consumer that authenticates it against a trusted master. */
module AichRecovery {
  import opened Base
  import opened AichTree
  import opened AichNodes
  import opened AichPath

  datatype Entry = Entry(ident: nat, hash: bytes)

  /** A parsed blob. A 32-bit entry cut off by the end of the blob still parses,
      so a hash may be shorter than 20 bytes. */
  type Entries = map<nat, bytes>

  /** The dictionary has every entry of the list. */
  ghost predicate Carries(entries: Entries, list: seq<Entry>) {
    forall i :: 0 <= i < |list| ==> list[i].ident in entries && entries[list[i].ident] == list[i].hash
  }

  lemma {:induction false} CarriesParts(entries: Entries, a: seq<Entry>, b: seq<Entry>)
    ensures Carries(entries, a + b) <==> Carries(entries, a) && Carries(entries, b)
  {
    if Carries(entries, a + b) {
      assert forall i :: 0 <= i < |a| ==> (a + b)[i] == a[i];
      assert forall i :: 0 <= i < |b| ==> (a + b)[|a| + i] == b[i];
    }
  }

  // ----- what the responder emits -----

  /** Sibling hashes along the walk to the part, top-down. */
  function SiblingEntries(h: Hash, data: bytes, start: nat, s: Shape, at: nat, ident: nat): seq<Entry>
    requires start + s.Size() <= |data| && at < s.Size()
    decreases s
  {
    if AtPart(s) then []
    else
      var middle := start + s.left.Size();
      if at < s.left.Size() then
        [Entry(Child(ident, false), Root(h, data, middle, s.right))]
        + SiblingEntries(h, data, start, s.left, at, Child(ident, true))
      else
        [Entry(Child(ident, true), Root(h, data, start, s.left))]
        + SiblingEntries(h, data, middle, s.right, at - s.left.Size(), Child(ident, false))
  }

  /** `_emit`: the leaves below a node, left to right. */
  function LeafEntries(node: Node, parent: nat): seq<Entry> {
    var ident := Child(parent, node.isLeft);
    match node
    case Leaf(_, _, _, hash) => [Entry(ident, hash)]
    case Branch(_, _, _, _, l, r) => LeafEntries(l, ident) + LeafEntries(r, ident)
  }

  function ZipEntries(idents: seq<nat>, hashes: seq<bytes>): seq<Entry>
    requires |idents| == |hashes|
  {
    seq(|idents|, i requires 0 <= i < |idents| => Entry(idents[i], hashes[i]))
  }

  lemma {:induction false} ZipConcat(a: seq<nat>, b: seq<nat>, x: seq<bytes>, y: seq<bytes>)
    requires |a| == |x| && |b| == |y|
    ensures ZipEntries(a + b, x + y) == ZipEntries(a, x) + ZipEntries(b, y)
  {
  }

  lemma {:induction false} LeafEntriesAreLeaves(h: Hash, data: bytes, start: nat, s: Shape, isLeft: bool, parent: nat)
    requires start + s.Size() <= |data| && Counted(s, false)
    ensures |EmitIdents(s, parent, isLeft)| == |Leaves(h, data, start, s)|
    ensures LeafEntries(TreeOf(h, data, start, s, isLeft), parent)
            == ZipEntries(EmitIdents(s, parent, isLeft), Leaves(h, data, start, s))
    decreases s
  {
    if s.Split? {
      var ident, middle := Child(parent, isLeft), start + s.left.Size();
      LeafEntriesAreLeaves(h, data, start, s.left, true, ident);
      LeafEntriesAreLeaves(h, data, middle, s.right, false, ident);
      ZipConcat(EmitIdents(s.left, ident, true), EmitIdents(s.right, ident, false),
                Leaves(h, data, start, s.left), Leaves(h, data, middle, s.right));
    }
  }

  // ----- the wire -----

  /** Entries back to back, their idents `width` bytes wide. */
  function Wire(entries: seq<Entry>, width: nat): bytes {
    if entries == [] then []
    else ToLittleEndian(entries[0].ident, width) + entries[0].hash + Wire(entries[1..], width)
  }

  /** The blob of `aich_part_recovery_data`: 32-bit idents for files above 4 GiB,
      16-bit otherwise, where an ident that does not fit is an AichError. */
  function SerializeEntries(entries: seq<Entry>, fileSize: nat): Result<bytes, Error> {
    if fileSize > 0xFFFF_FFFF then
      if |entries| > 0xFFFF || (exists e :: e in entries && e.ident > 0xFFFF_FFFF) then Failure(StructError)
      else Success(ToLittleEndian(0, 2) + ToLittleEndian(|entries|, 2) + Wire(entries, 4))
    else if |entries| > 0xFFFF then Failure(StructError)
    else if exists e :: e in entries && e.ident > 0xFFFF then Failure(AichError)
    else Success(ToLittleEndian(|entries|, 2) + Wire(entries, 2) + ToLittleEndian(0, 2))
  }

  /** `struct.unpack` of a little-endian integer at an offset. */
  function ReadInt(recovery: bytes, offset: nat, width: nat): Result<nat, Error> {
    var field := Slice(recovery, offset, offset + width);
    if |field| == width then Success(FromLittleEndian(field)) else Failure(StructError)
  }

  /** `count` entries from an offset on, each replacing an earlier one of its ident. */
  function ReadEntries(recovery: bytes, offset: nat, count: nat, width: nat, entries: Entries)
    : Result<(Entries, nat), Error>
    decreases count
  {
    if count == 0 then Success((entries, offset))
    else
      var ident :- ReadInt(recovery, offset, width);
      var hash := Slice(recovery, offset + width, offset + width + 20);
      ReadEntries(recovery, offset + width + 20, count - 1, width, entries[ident := hash])
  }

  function ParseSpec(recovery: bytes): Result<Entries, Error> {
    var count16 :- ReadInt(recovery, 0, 2);
    var (small, offset) :- ReadEntries(recovery, 2, count16, 2, map[]);
    var count32 :- ReadInt(recovery, offset, 2);
    var (all, _) :- ReadEntries(recovery, offset + 2, count32, 4, small);
    Success(all)
  }

  /** `aich_parse_recovery_data` */
  method ParseRecovery(recovery: bytes) returns (r: Result<Entries, Error>)
    ensures r == ParseSpec(recovery)
  {
    var count16 :- ReadInt(recovery, 0, 2);
    var small :- ParseEntries(recovery, 2, count16, 2, map[]);
    var (entries, offset) := small;
    var count32 :- ReadInt(recovery, offset, 2);
    var all :- ParseEntries(recovery, offset + 2, count32, 4, entries);
    return Success(all.0);
  }

  /** One of its two loops: entries with idents of one width. */
  method ParseEntries(recovery: bytes, start: nat, count: nat, width: nat, onto: Entries)
    returns (r: Result<(Entries, nat), Error>)
    ensures r == ReadEntries(recovery, start, count, width, onto)
  {
    var entries := onto;
    var offset: nat, i: nat := start, 0;
    while i < count
      invariant i <= count
      invariant ReadEntries(recovery, start, count, width, onto)
                == ReadEntries(recovery, offset, count - i, width, entries)
    {
      var ident :- ReadInt(recovery, offset, width);
      var hash := Slice(recovery, offset + width, offset + width + 20);
      entries := entries[ident := hash];
      offset := offset + width + 20;
      i := i + 1;
    }
    return Success((entries, offset));
  }

  function MapOf(entries: seq<Entry>, onto: Entries): Entries {
    if entries == [] then onto else MapOf(entries[1..], onto[entries[0].ident := entries[0].hash])
  }

  lemma {:induction false} PrefixSplits<T>(a: seq<T>, b: seq<T>, s: seq<T>)
    requires a + b <= s
    ensures a <= s && b <= s[|a|..]
  {
    assert s[..|a| + |b|] == a + b;
    assert s[..|a|] == (a + b)[..|a|] == a;
    assert s[|a|..][..|b|] == (a + b)[|a|..] == b;
  }

  lemma {:induction false} ReadIntHere(blob: bytes, offset: nat, n: nat, width: nat)
    requires offset <= |blob| && ToLittleEndian(n, width) <= blob[offset..]
    requires n < Pow256(width)
    ensures ReadInt(blob, offset, width) == Success(n)
  {
    assert Slice(blob, offset, offset + width) == blob[offset..][..width] == ToLittleEndian(n, width);
    LittleEndianRoundTrip(n, width);
  }

  lemma {:induction false} ReadEntryHere(blob: bytes, offset: nat, e: Entry, width: nat, rest: bytes)
    requires offset <= |blob| && |e.hash| == 20 && e.ident < Pow256(width)
    requires ToLittleEndian(e.ident, width) + e.hash + rest <= blob[offset..]
    ensures ReadInt(blob, offset, width) == Success(e.ident)
    ensures Slice(blob, offset + width, offset + width + 20) == e.hash
    ensures offset + width + 20 <= |blob| && rest <= blob[offset + width + 20..]
  {
    var field, tail := ToLittleEndian(e.ident, width), blob[offset..];
    PrefixSplits(field + e.hash, rest, tail);
    PrefixSplits(field, e.hash, tail);
    ReadIntHere(blob, offset, e.ident, width);
    assert tail[width + 20..] == blob[offset + width + 20..];
    assert Slice(blob, offset + width, offset + width + 20) == tail[width..][..20];
  }

  ghost predicate Fits(entries: seq<Entry>, width: nat) {
    forall i :: 0 <= i < |entries| ==> |entries[i].hash| == 20 && entries[i].ident < Pow256(width)
  }

  lemma {:induction false} FitsRest(entries: seq<Entry>, width: nat)
    requires Fits(entries, width) && entries != []
    ensures |entries[0].hash| == 20 && entries[0].ident < Pow256(width) && Fits(entries[1..], width)
  {
  }

  /** The entries stand one after the other from an offset to an end. */
  ghost predicate Written(blob: bytes, offset: nat, entries: seq<Entry>, width: nat, end: nat)
    decreases |entries|
  {
    if entries == [] then offset == end
    else
      && ReadInt(blob, offset, width) == Success(entries[0].ident)
      && Slice(blob, offset + width, offset + width + 20) == entries[0].hash
      && Written(blob, offset + width + 20, entries[1..], width, end)
  }

  lemma {:induction false} WireFirst(entries: seq<Entry>, width: nat, e: Entry, tail: bytes)
    requires entries != [] && e == entries[0] && tail == Wire(entries[1..], width) && |e.hash| == 20
    ensures Wire(entries, width) == ToLittleEndian(e.ident, width) + e.hash + tail
    ensures |Wire(entries, width)| == width + 20 + |tail|
  {
  }

  lemma {:induction false} WireWritten(blob: bytes, offset: nat, entries: seq<Entry>, width: nat, end: nat)
    requires Fits(entries, width) && offset <= |blob| && Wire(entries, width) <= blob[offset..]
    requires end == offset + |Wire(entries, width)|
    ensures Written(blob, offset, entries, width, end)
    decreases |entries|
  {
    if entries != [] {
      var e, rest := entries[0], entries[1..];
      var tail := Wire(rest, width);
      FitsRest(entries, width);
      WireFirst(entries, width, e, tail);
      ReadEntryHere(blob, offset, e, width, tail);
      WireWritten(blob, offset + width + 20, rest, width, end);
    }
  }

  lemma {:induction false} MapFirst(entries: seq<Entry>, onto: Entries, e: Entry, rest: seq<Entry>)
    requires entries != [] && e == entries[0] && rest == entries[1..]
    ensures MapOf(entries, onto) == MapOf(rest, onto[e.ident := e.hash])
  {
  }

  lemma {:induction false} ReadStep(blob: bytes, offset: nat, count: nat, width: nat, onto: Entries, e: Entry)
    requires count > 0 && ReadInt(blob, offset, width) == Success(e.ident)
    requires Slice(blob, offset + width, offset + width + 20) == e.hash
    ensures ReadEntries(blob, offset, count, width, onto)
            == ReadEntries(blob, offset + width + 20, count - 1, width, onto[e.ident := e.hash])
  {
  }

  lemma {:induction false} ReadWritten(blob: bytes, offset: nat, entries: seq<Entry>, width: nat, onto: Entries, end: nat)
    requires Written(blob, offset, entries, width, end)
    ensures ReadEntries(blob, offset, |entries|, width, onto) == Success((MapOf(entries, onto), end))
    decreases |entries|
  {
    if entries != [] {
      var e, rest := entries[0], entries[1..];
      MapFirst(entries, onto, e, rest);
      ReadStep(blob, offset, |entries|, width, onto, e);
      ReadWritten(blob, offset + width + 20, rest, width, onto[e.ident := e.hash], end);
    }
  }

  /** Whatever the responder serialises, the consumer reads back. */
  lemma {:induction false} WireRoundTrip(entries: seq<Entry>, fileSize: nat)
    requires forall e :: e in entries ==> |e.hash| == 20
    ensures var blob := SerializeEntries(entries, fileSize);
            blob.Success? ==> ParseSpec(blob.value) == Success(MapOf(entries, map[]))
  {
    var blob := SerializeEntries(entries, fileSize);
    if blob.Success? {
      WireWidths();
      var count, zero := ToLittleEndian(|entries|, 2), ToLittleEndian(0, 2);
      if fileSize > 0xFFFF_FFFF {
        ParseWide(blob.value, entries, zero, count, Wire(entries, 4));
      } else {
        ParseNarrow(blob.value, entries, count, Wire(entries, 2), zero);
      }
    }
  }

  lemma {:induction false} ThreeFields<T>(a: seq<T>, b: seq<T>, c: seq<T>)
    ensures var s := a + b + c;
            a <= s[0..] && b <= s[|a|..] && c <= s[|a| + |b|..]
  {
    var s := a + b + c;
    assert s[0..] == a + (b + c) && s[|a|..] == b + c && s[|a| + |b|..] == c;
  }

  lemma {:induction false} ParseWide(blob: bytes, entries: seq<Entry>, zero: bytes, count: bytes, wire: bytes)
    requires Fits(entries, 4)
    requires |entries| < Pow256(2)
    requires zero == ToLittleEndian(0, 2) && count == ToLittleEndian(|entries|, 2) && wire == Wire(entries, 4)
    requires blob == zero + count + wire
    ensures ParseSpec(blob) == Success(MapOf(entries, map[]))
  {
    ThreeFields(zero, count, wire);
    ReadIntHere(blob, 0, 0, 2);
    ReadIntHere(blob, 2, |entries|, 2);
    WireWritten(blob, 4, entries, 4, 4 + |wire|);
    ReadWritten(blob, 4, entries, 4, map[], 4 + |wire|);
  }

  lemma {:induction false} ParseNarrow(blob: bytes, entries: seq<Entry>, count: bytes, wire: bytes, zero: bytes)
    requires Fits(entries, 2)
    requires |entries| < Pow256(2)
    requires count == ToLittleEndian(|entries|, 2) && wire == Wire(entries, 2) && zero == ToLittleEndian(0, 2)
    requires blob == count + wire + zero
    ensures ParseSpec(blob) == Success(MapOf(entries, map[]))
  {
    ThreeFields(count, wire, zero);
    ReadIntHere(blob, 0, |entries|, 2);
    WireWritten(blob, 2, entries, 2, 2 + |wire|);
    ReadWritten(blob, 2, entries, 2, map[], 2 + |wire|);
    ReadIntHere(blob, 2 + |wire|, 0, 2);
  }

  // ----- which blobs parse -----

  /** A list of entries reads exactly when its last ident is there. */
  lemma {:induction false} ReadsIff(recovery: bytes, offset: nat, count: nat, width: nat, unit: nat, end: nat, entries: Entries,
                                    r: Result<(Entries, nat), Error>)
    requires width > 0 && unit == width + 20 && end == offset + count * unit
    requires r == ReadEntries(recovery, offset, count, width, entries)
    ensures r.Success? <==> count == 0 || end - 20 <= |recovery|
    ensures r.Success? ==> r.value.1 == end
    decreases count
  {
    if count > 0 {
      OneLess(count, unit);
      NoLess(count - 1, unit);
      IntReadable(recovery, offset, width);
      var ident := ReadInt(recovery, offset, width);
      if ident.Success? {
        var hash := Slice(recovery, offset + width, offset + unit);
        ReadsIff(recovery, offset + unit, count - 1, width, unit, end, entries[ident.value := hash], r);
      }
    }
  }

  lemma {:induction false} NoLess(n: nat, unit: nat)
    ensures n * unit >= 0
  {
  }

  lemma {:induction false} IntReadable(recovery: bytes, offset: nat, width: nat)
    requires width > 0
    ensures ReadInt(recovery, offset, width).Success? <==> offset + width <= |recovery|
    ensures offset + width <= |recovery| ==> ReadInt(recovery, offset, width).value == FromLittleEndian(recovery[offset..offset + width])
  {
  }

  /** A blob parses exactly when both counts are there, all of the first list, and the
      second list up to the ident of its last entry: that entry's hash may be cut
      short, and anything may follow. */
  lemma {:induction false} ParsesIff(recovery: bytes)
    ensures ParseSpec(recovery).Success?
            <==> && |recovery| >= 2
                 && var second := 2 + 22 * FromLittleEndian(recovery[0..2]);
                 && second + 2 <= |recovery|
                 && var large := FromLittleEndian(recovery[second..second + 2]);
                 large == 0 || second + 2 + 24 * large - 20 <= |recovery|
  {
    IntReadable(recovery, 0, 2);
    if |recovery| >= 2 {
      var small := FromLittleEndian(recovery[0..2]);
      var second := 2 + 22 * small;
      ReadsIff(recovery, 2, small, 2, 22, second, map[], ReadEntries(recovery, 2, small, 2, map[]));
      IntReadable(recovery, second, 2);
      if second + 2 <= |recovery| {
        SecondList(recovery, second + 2, FromLittleEndian(recovery[second..second + 2]),
                   ReadEntries(recovery, 2, small, 2, map[]).value.0);
      }
    }
  }

  lemma {:induction false} SecondList(recovery: bytes, offset: nat, count: nat, entries: Entries)
    ensures ReadEntries(recovery, offset, count, 4, entries).Success?
            <==> count == 0 || offset + 24 * count - 20 <= |recovery|
  {
    ReadsIff(recovery, offset, count, 4, 24, offset + count * 24, entries, ReadEntries(recovery, offset, count, 4, entries));
  }

  // ----- the layout of a blob -----

  lemma {:induction false} OneLess(n: nat, unit: nat)
    requires n > 0
    ensures n * unit == unit + (n - 1) * unit
  {
  }

  lemma {:induction false} WireSize(entries: seq<Entry>, width: nat, unit: nat)
    requires (forall e :: e in entries ==> |e.hash| == 20) && unit == width + 20
    ensures |Wire(entries, width)| == |entries| * unit
    decreases |entries|
  {
    if entries != [] {
      WireFirst(entries, width, entries[0], Wire(entries[1..], width));
      WireSize(entries[1..], width, unit);
      OneLess(|entries|, unit);
    }
  }

  lemma {:induction false} WireConcat(a: seq<Entry>, b: seq<Entry>, width: nat)
    ensures Wire(a + b, width) == Wire(a, width) + Wire(b, width)
    decreases |a|
  {
    if a == [] {
      assert a + b == b;
    } else {
      var field, rest := ToLittleEndian(a[0].ident, width) + a[0].hash, a[1..];
      assert (a + b)[0] == a[0] && (a + b)[1..] == rest + b;
      WireConcat(rest, b, width);
      ConcatAssoc(field, Wire(rest, width), Wire(b, width));
    }
  }

  /** Entry i stands behind i others of `unit` bytes. */
  lemma {:induction false} WireAt(entries: seq<Entry>, width: nat, unit: nat, i: nat, lo: nat)
    requires (forall e :: e in entries ==> |e.hash| == 20) && unit == width + 20
    requires i < |entries| && lo == i * unit
    ensures lo + unit <= |Wire(entries, width)|
    ensures Wire(entries, width)[lo..lo + unit] == ToLittleEndian(entries[i].ident, width) + entries[i].hash
  {
    var before, e, after := entries[..i], entries[i], entries[i + 1..];
    assert entries == before + ([e] + after);
    WireConcat(before, [e] + after, width);
    WireFirst([e] + after, width, e, Wire(after, width));
    WireSize(before, width, unit);
    MiddlePart(Wire(before, width), ToLittleEndian(e.ident, width) + e.hash, Wire(after, width));
  }

  lemma {:induction false} MiddlePart<T>(a: seq<T>, b: seq<T>, c: seq<T>)
    ensures (a + (b + c))[|a|..|a| + |b|] == b
  {
  }

  /** What can be sent: up to 65,535 entries with idents of two bytes, or of four for
      files above 4 GiB. */
  lemma {:induction false} SendableIff(entries: seq<Entry>, fileSize: nat)
    ensures SerializeEntries(entries, fileSize).Success?
            <==> && |entries| <= 65_535
                 && forall i :: 0 <= i < |entries| ==>
                      entries[i].ident <= if fileSize <= 4_294_967_295 then 65_535 else 4_294_967_295
    ensures SerializeEntries(entries, fileSize) == Failure(AichError)
            <==> fileSize <= 4_294_967_295 && |entries| <= 65_535 && exists i :: 0 <= i < |entries| && entries[i].ident > 65_535
  {
    forall i | 0 <= i < |entries|
      ensures entries[i] in entries
    {
    }
  }

  /** The wire form up to 4 GiB: the number of entries, each a two-byte ident and the
      hash, and an empty second list. */
  lemma {:induction false} NarrowLayout(entries: seq<Entry>, fileSize: nat, blob: bytes, i: nat)
    requires fileSize <= 4_294_967_295 && SerializeEntries(entries, fileSize) == Success(blob) && i < |entries|
    requires forall e :: e in entries ==> |e.hash| == 20
    ensures |blob| == 4 + 22 * |entries|
    ensures blob[0] as int + 256 * blob[1] as int == |entries|
    ensures blob[2 + 22 * i] as int + 256 * blob[3 + 22 * i] as int == entries[i].ident
    ensures blob[4 + 22 * i..24 + 22 * i] == entries[i].hash
    ensures blob[|blob| - 2] == 0 && blob[|blob| - 1] == 0
  {
    var count, wire, zero := ToLittleEndian(|entries|, 2), Wire(entries, 2), ToLittleEndian(0, 2);
    WireSize(entries, 2, 22);
    WireAt(entries, 2, 22, i, i * 22);
    TwoBytes(|entries|, count);
    TwoBytes(0, zero);
    assert entries[i] in entries;
    TwoBytes(entries[i].ident, ToLittleEndian(entries[i].ident, 2));
    Between(count, wire, zero, 22 * i, 22 * i + 22);
    EntryBytes(blob, 2 + 22 * i, entries[i], 2);
  }

  lemma {:induction false} Between<T>(a: seq<T>, b: seq<T>, c: seq<T>, lo: nat, hi: nat)
    requires lo <= hi <= |b|
    ensures (a + b + c)[|a| + lo..|a| + hi] == b[lo..hi]
  {
  }

  lemma {:induction false} EntryBytes(blob: bytes, at: nat, e: Entry, width: nat)
    requires at + width + 20 <= |blob| && |e.hash| == 20
    requires blob[at..at + width + 20] == ToLittleEndian(e.ident, width) + e.hash
    ensures blob[at..at + width] == ToLittleEndian(e.ident, width)
    ensures blob[at + width..at + width + 20] == e.hash
  {
    var cut := blob[at..at + width + 20];
    assert cut[..width] == ToLittleEndian(e.ident, width) && cut[width..] == e.hash;
    SliceOfSlice(blob, at, width + 20, 0, width);
    SliceOfSlice(blob, at, width + 20, width, width + 20);
  }

  /** The wire form above 4 GiB: an empty first list, and four-byte idents. */
  lemma {:induction false} WideLayout(entries: seq<Entry>, fileSize: nat, blob: bytes, i: nat)
    requires fileSize > 4_294_967_295 && SerializeEntries(entries, fileSize) == Success(blob) && i < |entries|
    requires forall e :: e in entries ==> |e.hash| == 20
    ensures |blob| == 4 + 24 * |entries|
    ensures blob[0] == 0 && blob[1] == 0 && blob[2] as int + 256 * blob[3] as int == |entries|
    ensures var o := 4 + 24 * i;
            && blob[o] as int + 256 * blob[o + 1] as int + 65_536 * blob[o + 2] as int + 16_777_216 * blob[o + 3] as int
               == entries[i].ident
            && blob[o + 4..o + 24] == entries[i].hash
  {
    var zero, count, wire := ToLittleEndian(0, 2), ToLittleEndian(|entries|, 2), Wire(entries, 4);
    WireSize(entries, 4, 24);
    WireAt(entries, 4, 24, i, i * 24);
    TwoBytes(|entries|, count);
    TwoBytes(0, zero);
    assert entries[i] in entries;
    FourBytes(entries[i].ident, ToLittleEndian(entries[i].ident, 4));
    assert zero + count + wire == (zero + count) + wire + [];
    Between(zero + count, wire, [], 24 * i, 24 * i + 24);
    EntryBytes(blob, 4 + 24 * i, entries[i], 4);
  }

  function Idents(entries: seq<Entry>): seq<nat> {
    if entries == [] then [] else [entries[0].ident] + Idents(entries[1..])
  }

  /** Of several entries of one ident, the last one counts. */
  lemma {:induction false} LastEntryCounts(before: seq<Entry>, e: Entry, after: seq<Entry>, onto: Entries)
    requires e.ident !in Idents(after)
    ensures e.ident in MapOf(before + [e] + after, onto) && MapOf(before + [e] + after, onto)[e.ident] == e.hash
    decreases |before|
  {
    if before != [] {
      assert (before + [e] + after)[1..] == before[1..] + [e] + after;
      LastEntryCounts(before[1..], e, after, onto[before[0].ident := before[0].hash]);
    } else {
      assert [] + [e] + after == [e] + after && ([e] + after)[1..] == after;
      OthersKeep(after, onto[e.ident := e.hash], e.ident);
    }
  }

  lemma {:induction false} OthersKeep(entries: seq<Entry>, onto: Entries, x: nat)
    requires x !in Idents(entries) && x in onto
    ensures x in MapOf(entries, onto) && MapOf(entries, onto)[x] == onto[x]
    decreases |entries|
  {
    if entries != [] {
      OthersKeep(entries[1..], onto[entries[0].ident := entries[0].hash], x);
    }
  }

  /** Entries with distinct idents all survive in the dictionary, and it has no others. */
  lemma {:induction false} MapOfDistinct(entries: seq<Entry>, onto: Entries)
    requires Distinct(Idents(entries))
    ensures Carries(MapOf(entries, onto), entries)
    ensures forall x :: x !in Idents(entries) ==>
              (x in MapOf(entries, onto) <==> x in onto) && (x in onto ==> MapOf(entries, onto)[x] == onto[x])
    decreases |entries|
  {
    if entries != [] {
      var e, rest := entries[0], entries[1..];
      DistinctHead(e.ident, Idents(rest));
      MapOfDistinct(rest, onto[e.ident := e.hash]);
      assert forall i :: 0 < i < |entries| ==> entries[i] == rest[i - 1];
    }
  }
}
