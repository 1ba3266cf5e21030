/** The incremental eD2k hasher (core/hashes/ed2k.py). */
module Ed2k {
  import opened Base

  const PARTSIZE := 9_728_000

  /** MD4 (section 3 of RFC 1320) is opaque: a total function to 16 bytes. */
  datatype Md4 = Md4(table: imap<bytes, bytes>)

  function Digest(md4: Md4, x: bytes): (digest: bytes)
    ensures |digest| == 16
  {
    if x in md4.table && |md4.table[x]| == 16 then md4.table[x] else seq(16, i => 0)
  }

  function Join(parts: seq<bytes>): bytes {
    if parts == [] then [] else parts[0] + Join(parts[1..])
  }

  // ----- the hasher -----

  /** Bytes fed, bytes in the running MD4, finished chunk digests. */
  datatype State = State(size: nat, pending: bytes, chunks: seq<bytes>)

  const FRESH := State(0, [], [])

  /** One turn of the loop of `update`: fill the running chunk, close it when full. */
  function FeedSome(md4: Md4, chunkSize: nat, s: State, data: bytes): State
    requires chunkSize > 0
  {
    var size, pending := s.size + |data|, s.pending + data;
    if size % chunkSize == 0 then State(size, [], s.chunks + [Digest(md4, pending)])
    else State(size, pending, s.chunks)
  }

  function Take(chunkSize: nat, s: State, data: bytes): nat
    requires chunkSize > 0
  {
    Min(|data|, chunkSize - s.size % chunkSize)
  }

  function Feed(md4: Md4, chunkSize: nat, s: State, data: bytes): State
    requires chunkSize > 0
    decreases |data|
  {
    if data == [] then s
    else
      var take := Take(chunkSize, s, data);
      Feed(md4, chunkSize, FeedSome(md4, chunkSize, s, data[..take]), data[take..])
  }

  /** `_finalize` */
  function Finalize(md4: Md4, chunkSize: nat, s: State): State
    requires chunkSize > 0
  {
    var remaining := s.size % chunkSize;
    var atExactBoundary := remaining == 0 && s.size != 0;
    if remaining != 0 || atExactBoundary || s.chunks == [] then
      s.(pending := [], chunks := s.chunks + [Digest(md4, s.pending)])
    else s
  }

  datatype HashResult = HashResult(fileHash: bytes, fileSize: nat, chunkHashes: seq<bytes>)

  function ResultOf(md4: Md4, s: State): HashResult
    requires s.chunks != []
  {
    HashResult(if |s.chunks| == 1 then s.chunks[0] else Digest(md4, Join(s.chunks)), s.size, s.chunks)
  }

  class Ed2kHasher {
    const md4: Md4
    const chunkSize: nat
    var size: nat
    var pending: bytes
    var chunkHashes: seq<bytes>

    constructor (md4: Md4, chunkSize: nat := PARTSIZE)
      requires chunkSize > 0
      ensures this.md4 == md4 && this.chunkSize == chunkSize && Contents() == FRESH
    {
      this.md4, this.chunkSize := md4, chunkSize;
      size, pending, chunkHashes := 0, [], [];
    }

    function Contents(): State
      reads this
    {
      State(size, pending, chunkHashes)
    }

    method Update(data: bytes)
      requires chunkSize > 0
      modifies this
      ensures Contents() == Feed(md4, chunkSize, old(Contents()), data)
    {
      var offset := 0;
      while offset < |data|
        invariant 0 <= offset <= |data|
        invariant Feed(md4, chunkSize, Contents(), data[offset..]) == Feed(md4, chunkSize, old(Contents()), data)
      {
        ghost var before, rest := Contents(), data[offset..];
        var take := Min(|data| - offset, chunkSize - size % chunkSize);
        assert rest[..take] == data[offset..offset + take] && rest[take..] == data[offset + take..];
        pending := pending + data[offset..offset + take];
        offset := offset + take;
        size := size + take;
        if size % chunkSize == 0 {
          chunkHashes := chunkHashes + [Digest(md4, pending)];
          pending := [];
        }
        assert Contents() == FeedSome(md4, chunkSize, before, rest[..take]);
      }
    }

    /** `result`: finalizes first, so the digests it adds stay in the hasher. */
    method Result() returns (r: HashResult)
      requires chunkSize > 0
      modifies this
      ensures Contents() == Finalize(md4, chunkSize, old(Contents()))
      ensures Contents().chunks != [] && r == ResultOf(md4, Contents())
    {
      var remaining := size % chunkSize;
      var atExactBoundary := remaining == 0 && size != 0;
      if remaining != 0 || atExactBoundary || chunkHashes == [] {
        chunkHashes := chunkHashes + [Digest(md4, pending)];
        pending := [];
      }
      var fileHash := if |chunkHashes| == 1 then chunkHashes[0] else Digest(md4, Join(chunkHashes));
      return HashResult(fileHash, size, chunkHashes);
    }
  }

  // ----- cutting the data does not matter -----

  /** Feeding less than fills the chunk, then the rest, is feeding both. */
  lemma {:induction false} FeedSomeTwice(md4: Md4, chunkSize: nat, s: State, a: bytes, b: bytes)
    requires chunkSize > 0 && a != [] && |a| < chunkSize - s.size % chunkSize
    ensures FeedSome(md4, chunkSize, s, a) == State(s.size + |a|, s.pending + a, s.chunks)
    ensures (s.size + |a|) % chunkSize == s.size % chunkSize + |a|
    ensures FeedSome(md4, chunkSize, FeedSome(md4, chunkSize, s, a), b) == FeedSome(md4, chunkSize, s, a + b)
  {
    SmallStep(s.size, |a|, chunkSize);
    assert (s.pending + a) + b == s.pending + (a + b);
  }

  lemma {:induction false} SmallStep(n: nat, k: nat, m: nat)
    requires m > 0 && k < m - n % m
    ensures (n + k) % m == n % m + k
  {
    var q, r := n / m, n % m;
    assert n + k == m * q + (r + k);
    DivModUnique(n + k, m, q, r + k);
  }

  /** Two updates are one update with the data put together. */
  lemma {:induction false} FeedConcat(md4: Md4, chunkSize: nat, s: State, a: bytes, b: bytes)
    requires chunkSize > 0
    ensures Feed(md4, chunkSize, Feed(md4, chunkSize, s, a), b) == Feed(md4, chunkSize, s, a + b)
    decreases |a|
  {
    if a == [] {
      assert a + b == b;
    } else if b == [] {
      assert a + b == a;
    } else {
      var take := Take(chunkSize, s, a);
      if take == chunkSize - s.size % chunkSize {
        assert Take(chunkSize, s, a + b) == take;
        assert (a + b)[..take] == a[..take] && (a + b)[take..] == a[take..] + b;
        FeedConcat(md4, chunkSize, FeedSome(md4, chunkSize, s, a[..take]), a[take..], b);
      } else {
        FeedShort(md4, chunkSize, s, a, b);
      }
    }
  }

  lemma {:induction false} FeedShort(md4: Md4, chunkSize: nat, s: State, a: bytes, b: bytes)
    requires chunkSize > 0 && a != [] && b != [] && |a| < chunkSize - s.size % chunkSize
    ensures Feed(md4, chunkSize, Feed(md4, chunkSize, s, a), b) == Feed(md4, chunkSize, s, a + b)
  {
    assert a[..|a|] == a && a[|a|..] == [];
    var mid := FeedSome(md4, chunkSize, s, a);
    FeedSomeTwice(md4, chunkSize, s, a, []);
    assert Feed(md4, chunkSize, s, a) == mid;
    var take := Take(chunkSize, mid, b);
    assert Take(chunkSize, s, a + b) == |a| + take;
    assert (a + b)[..|a| + take] == a + b[..take] && (a + b)[|a| + take..] == b[take..];
    FeedSomeTwice(md4, chunkSize, s, a, b[..take]);
  }

  function FeedAll(md4: Md4, chunkSize: nat, s: State, pieces: seq<bytes>): State
    requires chunkSize > 0
    decreases |pieces|
  {
    if pieces == [] then s else FeedAll(md4, chunkSize, Feed(md4, chunkSize, s, pieces[0]), pieces[1..])
  }

  lemma {:induction false} FeedAllIsFeed(md4: Md4, chunkSize: nat, s: State, pieces: seq<bytes>)
    requires chunkSize > 0
    ensures FeedAll(md4, chunkSize, s, pieces) == Feed(md4, chunkSize, s, Join(pieces))
    decreases |pieces|
  {
    if pieces != [] {
      FeedAllIsFeed(md4, chunkSize, Feed(md4, chunkSize, s, pieces[0]), pieces[1..]);
      FeedConcat(md4, chunkSize, s, pieces[0], Join(pieces[1..]));
    }
  }

  // ----- what the first result is -----

  /** Digest of chunk i. */
  function ChunkDigest(md4: Md4, chunkSize: nat, data: bytes, i: nat): bytes
    requires (i + 1) * chunkSize <= |data|
  {
    assert i * chunkSize + chunkSize == (i + 1) * chunkSize;
    Digest(md4, data[i * chunkSize..(i + 1) * chunkSize])
  }

  /** `digest` is that of chunk i, which the data holds whole. */
  predicate IsChunk(md4: Md4, chunkSize: nat, data: bytes, i: nat, digest: bytes) {
    (i + 1) * chunkSize <= |data| && digest == ChunkDigest(md4, chunkSize, data, i)
  }

  /** The hasher has digested every whole chunk of what it was fed, and holds the rest. */
  ghost predicate Digested(md4: Md4, chunkSize: nat, s: State, data: bytes)
    requires chunkSize > 0
  {
    && s.size == |data|
    && |s.chunks| == |data| / chunkSize
    && |s.chunks| * chunkSize + |s.pending| == |data|
    && |s.pending| == |data| % chunkSize
    && s.pending == data[|data| - |s.pending|..]
    && forall i :: 0 <= i < |s.chunks| ==> IsChunk(md4, chunkSize, data, i, s.chunks[i])
  }

  lemma {:induction false} ChunkOfPrefix(md4: Md4, chunkSize: nat, fed: bytes, data: bytes, i: nat)
    requires (i + 1) * chunkSize <= |fed|
    ensures (i + 1) * chunkSize <= |fed + data|
    ensures ChunkDigest(md4, chunkSize, fed + data, i) == ChunkDigest(md4, chunkSize, fed, i)
  {
    assert i * chunkSize + chunkSize == (i + 1) * chunkSize;
    assert (fed + data)[i * chunkSize..(i + 1) * chunkSize] == fed[i * chunkSize..(i + 1) * chunkSize];
  }

  lemma {:induction false} CloseChunk(m: nat, n: nat, left: nat, more: nat, total: nat)
    requires m > 0 && left + more <= m && total == n * m + left + more
    ensures left + more == m ==> total / m == n + 1 && total % m == 0 && total == (n + 1) * m
    ensures left + more < m ==> total / m == n && total % m == left + more
    ensures (total % m == 0) == (left + more == m || left + more == 0)
  {
    assert (n + 1) * m == n * m + m;
    if left + more == m {
      DivModUnique(total, m, n + 1, 0);
    } else {
      DivModUnique(total, m, n, left + more);
    }
  }

  /** What is left of the data after n whole chunks. */
  lemma {:induction false} Leftover(m: nat, n: nat, fed: bytes, data: bytes, left: bytes)
    requires |fed| == n * m + |left| && left == fed[|fed| - |left|..]
    ensures left + data == (fed + data)[n * m..]
  {
  }

  lemma {:induction false} WholeChunks(md4: Md4, m: nat, fed: bytes, data: bytes, chunks: seq<bytes>)
    requires forall i :: 0 <= i < |chunks| ==> IsChunk(md4, m, fed, i, chunks[i])
    ensures forall i :: 0 <= i < |chunks| ==> IsChunk(md4, m, fed + data, i, chunks[i])
  {
    forall i | 0 <= i < |chunks|
      ensures IsChunk(md4, m, fed + data, i, chunks[i])
    {
      assert IsChunk(md4, m, fed, i, chunks[i]);
      ChunkOfPrefix(md4, m, fed, data, i);
    }
  }

  lemma {:induction false} FullChunk(md4: Md4, m: nat, all: bytes, chunks: seq<bytes>, pending: bytes)
    requires m > 0 && |all| == (|chunks| + 1) * m && |pending| == m
    requires |chunks| * m <= |all| && pending == all[|chunks| * m..]
    requires |all| / m == |chunks| + 1 && |all| % m == 0
    requires forall i :: 0 <= i < |chunks| ==> IsChunk(md4, m, all, i, chunks[i])
    ensures Digested(md4, m, State(|all|, [], chunks + [Digest(md4, pending)]), all)
  {
    var n := |chunks|;
    assert pending == all[n * m..(n + 1) * m];
    assert Digest(md4, pending) == ChunkDigest(md4, m, all, n);
  }

  lemma {:induction false} FeedSomeDigests(md4: Md4, m: nat, s: State, fed: bytes, data: bytes)
    requires m > 0 && Digested(md4, m, s, fed)
    requires data != [] && |data| <= m - s.size % m
    ensures Digested(md4, m, FeedSome(md4, m, s, data), fed + data)
  {
    var all, n, pending := fed + data, |s.chunks|, s.pending + data;
    CloseChunk(m, n, |s.pending|, |data|, |all|);
    WholeChunks(md4, m, fed, data, s.chunks);
    Leftover(m, n, fed, data, s.pending);
    if |pending| == m {
      FullChunk(md4, m, all, s.chunks, pending);
    }
  }

  lemma {:induction false} FeedDigests(md4: Md4, chunkSize: nat, s: State, fed: bytes, data: bytes)
    requires chunkSize > 0 && Digested(md4, chunkSize, s, fed)
    ensures Digested(md4, chunkSize, Feed(md4, chunkSize, s, data), fed + data)
    decreases |data|
  {
    if data == [] {
      assert fed + data == fed;
    } else {
      var take := Take(chunkSize, s, data);
      FeedSomeDigests(md4, chunkSize, s, fed, data[..take]);
      FeedDigests(md4, chunkSize, FeedSome(md4, chunkSize, s, data[..take]), fed + data[..take], data[take..]);
      assert fed + data[..take] + data[take..] == fed + data;
    }
  }

  /** The eD2k chunk digests of a file: every whole chunk, then what is left,
      which is the empty chunk at an exact multiple. */
  ghost predicate ChunkDigests(md4: Md4, chunkSize: nat, data: bytes, chunks: seq<bytes>)
    requires chunkSize > 0
  {
    && |chunks| == |data| / chunkSize + 1
    && chunks[|data| / chunkSize] == Digest(md4, data[|data| - |data| % chunkSize..])
    && forall i :: 0 <= i < |data| / chunkSize ==> IsChunk(md4, chunkSize, data, i, chunks[i])
  }

  lemma {:induction false} SameChunks(md4: Md4, chunkSize: nat, data: bytes, a: seq<bytes>, b: seq<bytes>)
    requires chunkSize > 0 && ChunkDigests(md4, chunkSize, data, a) && ChunkDigests(md4, chunkSize, data, b)
    ensures a == b
  {
    forall i | 0 <= i < |a|
      ensures a[i] == b[i]
    {
      if i < |data| / chunkSize {
        assert IsChunk(md4, chunkSize, data, i, a[i]) && IsChunk(md4, chunkSize, data, i, b[i]);
      }
    }
  }

  /** Streaming independence: however the data is cut into updates, the first
      result is that of the whole data: its size, its chunk digests, and their
      sole digest or the MD4 of them all. */
  lemma {:induction false} StreamingIndependence(md4: Md4, chunkSize: nat, pieces: seq<bytes>)
    requires chunkSize > 0
    ensures var data := Join(pieces);
            var s := Finalize(md4, chunkSize, FeedAll(md4, chunkSize, FRESH, pieces));
            && s == Finalize(md4, chunkSize, Feed(md4, chunkSize, FRESH, data))
            && ChunkDigests(md4, chunkSize, data, s.chunks)
            && s.size == |data|
            && s.chunks != []
            && ResultOf(md4, s).fileHash
               == if |data| < chunkSize then Digest(md4, data) else Digest(md4, Join(s.chunks))
  {
    var data := Join(pieces);
    FeedAllIsFeed(md4, chunkSize, FRESH, pieces);
    NothingDigested(md4, chunkSize);
    FeedDigests(md4, chunkSize, FRESH, [], data);
    assert [] + data == data;
    if |data| < chunkSize {
      DivModUnique(|data|, chunkSize, 0, |data|);
      assert data[0..] == data;
    } else {
      SomeChunks(|data|, chunkSize);
    }
  }

  lemma {:induction false} ReadMore(data: bytes, pos: nat, next: nat)
    requires pos <= next <= |data|
    ensures data[..pos] + data[pos..next] == data[..next]
  {
  }

  /** `ed2k_hash_file`: reads of 65,536 bytes through the hasher. */
  method HashFile(md4: Md4, data: bytes, chunkSize: nat := PARTSIZE) returns (r: HashResult)
    requires chunkSize > 0
    ensures r.fileSize == |data| && ChunkDigests(md4, chunkSize, data, r.chunkHashes)
    ensures r.fileHash == Digest(md4, if |data| < chunkSize then data else Join(r.chunkHashes))
  {
    var hasher := new Ed2kHasher(md4, chunkSize);
    var pos := 0;
    while pos < |data|
      invariant pos <= |data| && hasher.md4 == md4 && hasher.chunkSize == chunkSize
      invariant hasher.Contents() == Feed(md4, chunkSize, FRESH, data[..pos])
    {
      var next := Min(pos + 0x1_0000, |data|);
      hasher.Update(data[pos..next]);
      FeedConcat(md4, chunkSize, FRESH, data[..pos], data[pos..next]);
      ReadMore(data, pos, next);
      pos := next;
    }
    assert data[..pos] == data && Join([data]) == data;
    r := hasher.Result();
    StreamingIndependence(md4, chunkSize, [data]);
  }

  lemma {:induction false} SomeChunks(n: nat, m: nat)
    requires m > 0 && n >= m
    ensures n / m >= 1
  {
    assert n == m * (n / m) + n % m;
  }

  lemma {:induction false} NothingDigested(md4: Md4, chunkSize: nat)
    requires chunkSize > 0
    ensures Digested(md4, chunkSize, FRESH, [])
  {
    DivModUnique(0, chunkSize, 0, 0);
  }

  /** Asking again adds one more empty-chunk digest, so a second result equals
      the first exactly when nothing was ever fed. */
  lemma {:induction false} SecondResult(md4: Md4, chunkSize: nat, data: bytes)
    requires chunkSize > 0
    ensures var first := Finalize(md4, chunkSize, Feed(md4, chunkSize, FRESH, data));
            var second := Finalize(md4, chunkSize, first);
            && (second == first <==> data == [])
            && (data != [] ==> second.chunks == first.chunks + [Digest(md4, [])])
  {
    NothingDigested(md4, chunkSize);
    FeedDigests(md4, chunkSize, FRESH, [], data);
    assert [] + data == data;
  }
}
