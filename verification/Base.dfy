/** Result types, bytes and little-endian integers shared by every component. */
module Base {

  datatype Option<+T> = None | Some(value: T)

  datatype Result<+T, +E> = Success(value: T) | Failure(error: E) {
    predicate IsFailure() {
      Failure?
    }

    function PropagateFailure<U>(): Result<U, E>
      requires Failure?
    {
      Failure(error)
    }

    function Extract(): T
      requires Success?
    {
      value
    }
  }

  type byte = b: int | 0 <= b < 256
  type bytes = seq<byte>

  /** SHA-1 (section 6 of RFC 3174) is opaque: any table from byte strings to 20
      bytes, zeros where it has none. The second form stands for the same tables
      behind one more step; it keeps the table out of proofs about the trees. */
  datatype Hash = Table(table: imap<bytes, bytes>) | Other(base: Hash)

  function Sha1(h: Hash, x: bytes): (digest: bytes)
    ensures |digest| == 20
  {
    if h.Other? then Sha1(h.base, x)
    else if x in h.table && |h.table[x]| == 20 then h.table[x]
    else seq(20, i => 0)
  }

  function Min(a: int, b: int): int {
    if a <= b then a else b
  }

  function Max(a: int, b: int): int {
    if a >= b then a else b
  }

  function CeilDiv(a: nat, b: nat): (q: nat)
    requires b > 0
  {
    (a + b - 1) / b
  }

  lemma {:induction false} DivModUnique(x: nat, m: nat, q: nat, r: nat)
    requires m > 0 && r < m && x == m * q + r
    ensures x / m == q && x % m == r
  {
    var q', r' := x / m, x % m;
    assert x == m * q' + r';
    assert m * (q - q') == m * q - m * q';
    assert m * (q' - q) == m * q' - m * q;
    if q > q' {
      AtLeast(m, q - q');
    } else if q < q' {
      AtLeast(m, q' - q);
    }
  }

  lemma {:induction false} AtLeast(m: nat, k: int)
    requires k >= 1
    ensures m * k >= m
  {
    assert m * k == m + m * (k - 1);
  }

  /** `data[lo:hi]` as Python slices it: indices beyond the end are clamped. */
  function Slice<T>(data: seq<T>, lo: nat, hi: nat): (s: seq<T>)
    ensures lo <= hi <= |data| ==> s == data[lo..hi]
    ensures |s| <= Max(hi - lo, 0)
  {
    var top := Min(hi, |data|);
    if lo <= top then data[lo..top] else []
  }

  /** Cutting a concatenation where its two halves meet. */
  lemma {:induction false} CutConcat<T>(a: seq<T>, b: seq<T>, s: seq<T>, k: nat)
    requires s == a + b && k == |a|
    ensures Slice(s, 0, k) == a && Slice(s, k, |s|) == b
  {
  }

  /** A slice of a slice. */
  lemma {:induction false} SliceOfSlice<T>(s: seq<T>, at: nat, n: nat, lo: nat, hi: nat)
    requires at + n <= |s| && lo <= hi <= n
    ensures s[at..at + n][lo..hi] == s[at + lo..at + hi]
  {
    var cut := s[at..at + n];
    assert forall k :: lo <= k < hi ==> cut[k] == s[at + k];
    assert cut[lo..hi] == s[at + lo..at + hi];
  }

  lemma {:induction false} ConcatAssoc<T>(a: seq<T>, b: seq<T>, c: seq<T>)
    ensures (a + b) + c == a + (b + c)
  {
  }

  // ----- little-endian integers -----

  function Pow256(width: nat): (p: nat)
    ensures p > 0
  {
    if width == 0 then 1 else 256 * Pow256(width - 1)
  }

  function ToLittleEndian(n: nat, width: nat): (bs: bytes)
    ensures |bs| == width
  {
    if width == 0 then [] else [n % 256] + ToLittleEndian(n / 256, width - 1)
  }

  function FromLittleEndian(bs: bytes): nat {
    if bs == [] then 0 else bs[0] + 256 * FromLittleEndian(bs[1..])
  }

  lemma {:induction false} LittleEndianRoundTrip(n: nat, width: nat)
    requires n < Pow256(width)
    ensures FromLittleEndian(ToLittleEndian(n, width)) == n
  {
    if width > 0 {
      LittleEndianRoundTrip(n / 256, width - 1);
      assert ToLittleEndian(n, width)[1..] == ToLittleEndian(n / 256, width - 1);
    }
  }

  lemma {:induction false} LittleEndianUnique(bs: bytes)
    ensures FromLittleEndian(bs) < Pow256(|bs|)
    ensures ToLittleEndian(FromLittleEndian(bs), |bs|) == bs
  {
    if bs != [] {
      LittleEndianUnique(bs[1..]);
      DivModUnique(FromLittleEndian(bs), 256, FromLittleEndian(bs[1..]), bs[0]);
      assert [bs[0]] + bs[1..] == bs;
    }
  }

  lemma {:induction false} DivDiv(n: nat, p: nat)
    requires p > 0
    ensures n / (256 * p) == n / 256 / p
  {
    var q, r := n / 256 / p, n / 256 % p;
    assert n == 256 * (p * q + r) + n % 256 && 256 * (p * q) == (256 * p) * q;
    DivModUnique(n, 256 * p, q, 256 * r + n % 256);
  }

  /** Byte k counts 256^k: least significant first. */
  lemma {:induction false} LittleEndianAt(n: nat, width: nat, k: nat)
    requires k < width
    ensures ToLittleEndian(n, width)[k] == n / Pow256(k) % 256
  {
    if k > 0 {
      LittleEndianAt(n / 256, width - 1, k - 1);
      DivDiv(n, Pow256(k - 1));
    }
  }

  /** A four-byte number, byte by byte. */
  lemma {:induction false} FourBytes(n: nat, bs: bytes)
    requires n <= 0xFFFF_FFFF && bs == ToLittleEndian(n, 4)
    ensures n == bs[0] as int + 256 * bs[1] as int + 65_536 * bs[2] as int + 16_777_216 * bs[3] as int
  {
    FourPowers();
    LittleEndianAt(n, 4, 0);
    LittleEndianAt(n, 4, 1);
    LittleEndianAt(n, 4, 2);
    LittleEndianAt(n, 4, 3);
  }

  lemma {:induction false} TwoBytes(n: nat, bs: bytes)
    requires n <= 0xFFFF && bs == ToLittleEndian(n, 2)
    ensures n == bs[0] as int + 256 * bs[1] as int
  {
    FourPowers();
    LittleEndianAt(n, 2, 0);
    LittleEndianAt(n, 2, 1);
  }

  lemma {:induction false} FourPowers()
    ensures Pow256(0) == 1 && Pow256(1) == 256 && Pow256(2) == 65_536 && Pow256(3) == 16_777_216
  {
    assert Pow256(1) == 256 * Pow256(0);
    assert Pow256(2) == 256 * Pow256(1);
    assert Pow256(3) == 256 * Pow256(2);
  }

  /** The widths the wire uses. */
  lemma {:induction false} WireWidths()
    ensures Pow256(1) == 0x100 && Pow256(2) == 0x1_0000
    ensures Pow256(4) == 0x1_0000_0000 && Pow256(8) == 0x1_0000_0000_0000_0000
  {
    assert Pow256(1) == 256 * Pow256(0);
    assert Pow256(2) == 256 * Pow256(1);
    assert Pow256(3) == 256 * Pow256(2);
    assert Pow256(4) == 256 * Pow256(3);
    assert Pow256(5) == 256 * Pow256(4);
    assert Pow256(6) == 256 * Pow256(5);
    assert Pow256(7) == 256 * Pow256(6);
    assert Pow256(8) == 256 * Pow256(7);
  }
}
