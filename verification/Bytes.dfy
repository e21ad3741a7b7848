/**
 Bytes, fixed-width integers and the outcome of a fallible operation.

 Everything PeachDB stores or sends is a byte sequence; every length in it is a
 fixed-width unsigned integer, little-endian on disk and big-endian on the wire.
 */
module Bytes {

  newtype byte = b: int | 0 <= b < 256
  type Bytes = seq<byte>

  const U16: nat := 0x1_0000
  const U32: nat := 0x1_0000_0000
  const U64: nat := 0x1_0000_0000_0000_0000

  type i64 = n: int | -0x8000_0000_0000_0000 <= n < 0x8000_0000_0000_0000
  type u64 = n: int | 0 <= n < 0x1_0000_0000_0000_0000

  datatype Option<+T> = None | Some(value: T)

  /** The variants of `PeachDbError` that the modelled code can return (src/error.rs). */
  datatype Error =
    | Io
    | InvalidMagicBytes
    | InvalidIndexEntry
    | UnknownDtype(b: byte)
    | CorruptedRecord
    | InvalidFinishCall
    | BufferTooShort
    | UnknownCommand(b: byte)
    | InvalidRequestFormat
    | DbNameTooLong
    | KeyNotFound

  /** A Rust call either returns `Ok`, returns `Err`, or panics. */
  datatype Outcome<+T> = Ok(value: T) | Err(error: Error) | Panic {
    predicate IsFailure() { !Ok? }

    function PropagateFailure<U>(): Outcome<U>
      requires !Ok?
    {
      if Err? then Err(error) else Panic
    }

    function Extract(): T
      requires Ok?
    {
      value
    }
  }

  function Lookup<K, V>(m: map<K, V>, k: K): Option<V> {
    if k in m then Some(m[k]) else None
  }

  predicate Distinct<T(==)>(order: seq<T>) {
    forall i, j :: 0 <= i < j < |order| ==> order[i] != order[j]
  }

  /** Maps are equal when they answer every lookup alike. */
  lemma MapsEqual<K(!new), V>(a: map<K, V>, b: map<K, V>)
    requires forall k :: Lookup(a, k) == Lookup(b, k)
    ensures a == b
  {
    forall k
      ensures k in a <==> k in b
      ensures k in a ==> a[k] == b[k]
    {
      assert Lookup(a, k) == Lookup(b, k);
    }
    assert a.Keys == b.Keys;
  }

  // ---------------------------------------------------------------------------
  // Fixed-width integers

  function Pow256(k: nat): (p: nat)
    ensures p > 0
  {
    if k == 0 then 1 else 256 * Pow256(k - 1)
  }

  lemma PowValues()
    ensures Pow256(1) == 256 && Pow256(2) == U16 && Pow256(4) == U32 && Pow256(8) == U64
  {
    assert Pow256(3) == 0x100_0000;
    assert Pow256(5) == 0x100_0000_0000;
    assert Pow256(6) == 0x1_0000_0000_0000;
    assert Pow256(7) == 0x100_0000_0000_0000;
  }

  /** The low `k` bytes of `n`, least significant first: Rust's `(n as uN).to_le_bytes()`. */
  function LE(k: nat, n: nat): (s: Bytes)
    ensures |s| == k
  {
    if k == 0 then [] else [(n % 256) as byte] + LE(k - 1, n / 256)
  }

  function FromLE(s: Bytes): (n: nat)
    ensures n < Pow256(|s|)
  {
    if s == [] then 0 else s[0] as int + 256 * FromLE(s[1..])
  }

  /** The low `k` bytes of `n`, most significant first: `(n as uN).to_be_bytes()`. */
  function BE(k: nat, n: nat): (s: Bytes)
    ensures |s| == k
  {
    if k == 0 then [] else BE(k - 1, n / 256) + [(n % 256) as byte]
  }

  function FromBE(s: Bytes): (n: nat)
    ensures n < Pow256(|s|)
  {
    if s == [] then 0 else 256 * FromBE(s[..|s| - 1]) + s[|s| - 1] as int
  }

  lemma {:induction false} LERoundTrip(k: nat, n: nat)
    requires n < Pow256(k)
    ensures FromLE(LE(k, n)) == n
  {
    if k > 0 {
      LERoundTrip(k - 1, n / 256);
      assert LE(k, n)[1..] == LE(k - 1, n / 256);
    }
  }

  lemma {:induction false} FromLERoundTrip(s: Bytes)
    ensures LE(|s|, FromLE(s)) == s
  {
    if s != [] {
      FromLERoundTrip(s[1..]);
      assert s == [s[0]] + s[1..];
    }
  }

  lemma {:induction false} BERoundTrip(k: nat, n: nat)
    requires n < Pow256(k)
    ensures FromBE(BE(k, n)) == n
  {
    if k > 0 {
      BERoundTrip(k - 1, n / 256);
      assert BE(k, n)[..k - 1] == BE(k - 1, n / 256);
    }
  }

  /** The three widths used on disk, in the form the codec proofs need. */
  lemma LEWidths(n: nat)
    ensures n < U16 ==> FromLE(LE(2, n)) == n
    ensures n < U32 ==> FromLE(LE(4, n)) == n
    ensures n < U64 ==> FromLE(LE(8, n)) == n
  {
    PowValues();
    if n < U16 { LERoundTrip(2, n); }
    if n < U32 { LERoundTrip(4, n); }
    if n < U64 { LERoundTrip(8, n); }
  }

  lemma BEWidths(n: nat)
    ensures n < U16 ==> FromBE(BE(2, n)) == n
    ensures n < U32 ==> FromBE(BE(4, n)) == n
  {
    PowValues();
    if n < U16 { BERoundTrip(2, n); }
    if n < U32 { BERoundTrip(4, n); }
  }

  /** Two's complement of an `i64`, as the unsigned value of its eight bytes. */
  function ToU64(n: i64): (u: nat)
    ensures u < U64
  {
    if n < 0 then n + U64 else n
  }

  function FromU64(u: nat): (n: i64)
    requires u < U64
    ensures ToU64(n) == u
  {
    if u < 0x8000_0000_0000_0000 then u else u - U64
  }

  function Zeros(n: nat): (s: Bytes)
    ensures |s| == n
    ensures forall i :: 0 <= i < n ==> s[i] == 0
  {
    if n == 0 then [] else [0] + Zeros(n - 1)
  }

  // ---------------------------------------------------------------------------
  // Reading from a `Cursor<&[u8]>`

  /** `Cursor::read_exact`: a position past the end reads like the end itself. */
  function ReadExact(buf: Bytes, pos: nat, n: nat): (r: Outcome<Bytes>)
    ensures r.Ok? ==> |r.value| == n
  {
    var start := if pos < |buf| then pos else |buf|;
    if n <= |buf| - start then Ok(buf[start..start + n]) else Err(Io)
  }

  /** `s` stands in `buf` at position `pos`. */
  predicate At(buf: Bytes, pos: nat, s: Bytes) {
    pos + |s| <= |buf| && buf[pos..pos + |s|] == s
  }

  lemma AtRead(buf: Bytes, pos: nat, s: Bytes)
    requires At(buf, pos, s)
    ensures ReadExact(buf, pos, |s|) == Ok(s)
  {
  }

  lemma AtSplit(buf: Bytes, pos: nat, a: Bytes, b: Bytes)
    requires At(buf, pos, a + b)
    ensures At(buf, pos, a) && At(buf, pos + |a|, b)
  {
    var s := buf[pos..pos + |a + b|];
    assert a == (a + b)[..|a|] && b == (a + b)[|a|..];
    assert s[..|a|] == buf[pos..pos + |a|];
    assert s[|a|..] == buf[pos + |a|..pos + |a| + |b|];
  }

  lemma SliceOfSlice<T>(s: seq<T>, lo: nat, hi: nat, p: nat, q: nat)
    requires p <= q && lo + q <= hi <= |s|
    ensures s[lo..hi][p..q] == s[lo + p..lo + q]
  {
    forall i | 0 <= i < q - p
      ensures s[lo..hi][p..q][i] == s[lo + p..lo + q][i]
    {
    }
  }
}
