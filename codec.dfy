/** The binary codec of ADB.cpp: fixed-width values are written as their raw
    bytes, strings as a size_t length prefix followed by their bytes.

    The raw memory layout is a choice of the model: little-endian, `int` as 4
    bytes in two's complement, `size_t` as 8 unsigned bytes, and the stream
    position fixed to an 8-byte unsigned offset. (On libstdc++
    `sizeof(std::streampos)` is 16, a signed offset plus a conversion state,
    so a real index pair is 20 bytes rather than the model's 12.) Decoders read from the front of a byte stream and return
    the decoded value with the rest of the stream, or None when the stream ends
    before the value is complete. */
module Codec {
  import opened Wrappers

  type Byte = b: int | 0 <= b < 256

  /** sizeof(int) */
  const INT_BYTES: nat := 4
  /** sizeof(size_t); also the model's width of a stream position */
  const WORD_BYTES: nat := 8

  const TWO_32: nat := 0x1_0000_0000
  const TWO_64: nat := 0x1_0000_0000_0000_0000

  /** A C++ `int`. */
  type Int32 = x: int | -0x8000_0000 <= x < 0x8000_0000

  /** A `size_t`, or a stream position as the model fixes it: an unsigned
      8-byte offset. */
  type U64 = n: nat | n < 0x1_0000_0000_0000_0000

  /** A `std::string`: its bytes, fewer than a size_t can count. */
  type String = s: seq<Byte> | |s| < 0x1_0000_0000_0000_0000 witness []

  /** An encode/decode pair for the values of one type, the capability a
      client supplies for the data type of a store. */
  datatype Codec<!T> = Codec(encode: T -> seq<Byte>, decode: seq<Byte> -> Option<(T, seq<Byte>)>)

  /** Decoding reads back exactly what encoding wrote, and leaves whatever
      follows it in the stream untouched. */
  ghost predicate Lawful<T(!new)>(c: Codec<T>)
  {
    forall v: T, rest: seq<Byte> :: c.decode(c.encode(v) + rest) == Some((v, rest))
  }

  function Pow256(w: nat): (p: nat)
    ensures p >= 1
  {
    if w == 0 then 1 else 256 * Pow256(w - 1)
  }

  lemma Pow256Widths()
    ensures Pow256(INT_BYTES) == TWO_32
    ensures Pow256(WORD_BYTES) == TWO_64
  {
    assert Pow256(2) == 0x1_0000;
    assert Pow256(4) == TWO_32;
    assert Pow256(6) == 0x1_0000_0000_0000;
  }

  /** The unsigned little-endian value of a byte string. */
  function DecodeLE(s: seq<Byte>): (n: nat)
    ensures n < Pow256(|s|)
  {
    if s == [] then 0 else s[0] + 256 * DecodeLE(s[1..])
  }

  /** The w raw bytes of an unsigned value, least significant first; the
      inverse of DecodeLE. */
  function EncodeLE(n: nat, w: nat): (r: seq<Byte>)
    requires n < Pow256(w)
    ensures |r| == w
    ensures DecodeLE(r) == n
  {
    if w == 0 then [] else [n % 256] + EncodeLE(n / 256, w - 1)
  }

  /** Every byte string of width w is the encoding of its value: the raw
      encoding is a bijection between values below 256^w and w-byte strings. */
  lemma {:induction false} EncodeDecodeLE(s: seq<Byte>)
    ensures EncodeLE(DecodeLE(s), |s|) == s
  {
    if s != [] {
      var n := DecodeLE(s);
      assert n % 256 == s[0] && n / 256 == DecodeLE(s[1..]);
      EncodeDecodeLE(s[1..]);
    }
  }

  // ---- int (the fixed-width template of serialize/deserialize) ----

  function EncodeInt32(x: Int32): (r: seq<Byte>)
    ensures |r| == INT_BYTES
  {
    Pow256Widths();
    EncodeLE(if x < 0 then x + TWO_32 else x, INT_BYTES)
  }

  function DecodeInt32(s: seq<Byte>): (r: Option<(Int32, seq<Byte>)>)
    ensures r.None? <==> |s| < INT_BYTES
    ensures r.Some? ==> r.value.1 == s[INT_BYTES..]
  {
    if |s| < INT_BYTES then None
    else
      Pow256Widths();
      var n := DecodeLE(s[..INT_BYTES]);
      Some((if n < 0x8000_0000 then n else n - TWO_32, s[INT_BYTES..]))
  }

  lemma Int32RoundTrip(x: Int32, rest: seq<Byte>)
    ensures DecodeInt32(EncodeInt32(x) + rest) == Some((x, rest))
  {
    var e := EncodeInt32(x);
    assert (e + rest)[..INT_BYTES] == e;
    assert (e + rest)[INT_BYTES..] == rest;
  }

  /** The other direction: any four bytes decode to the int whose encoding
      they are. */
  lemma Int32Canonical(s: seq<Byte>)
    requires |s| >= INT_BYTES
    ensures DecodeInt32(s).Some? && EncodeInt32(DecodeInt32(s).value.0) == s[..INT_BYTES]
  {
    Pow256Widths();
    EncodeDecodeLE(s[..INT_BYTES]);
  }

  // ---- size_t and std::streampos ----

  function EncodeU64(n: U64): (r: seq<Byte>)
    ensures |r| == WORD_BYTES
  {
    Pow256Widths();
    EncodeLE(n, WORD_BYTES)
  }

  function DecodeU64(s: seq<Byte>): (r: Option<(U64, seq<Byte>)>)
    ensures r.None? <==> |s| < WORD_BYTES
    ensures r.Some? ==> r.value.1 == s[WORD_BYTES..]
  {
    if |s| < WORD_BYTES then None
    else
      Pow256Widths();
      Some((DecodeLE(s[..WORD_BYTES]), s[WORD_BYTES..]))
  }

  lemma U64RoundTrip(n: U64, rest: seq<Byte>)
    ensures DecodeU64(EncodeU64(n) + rest) == Some((n, rest))
  {
    var e := EncodeU64(n);
    assert (e + rest)[..WORD_BYTES] == e;
    assert (e + rest)[WORD_BYTES..] == rest;
  }

  lemma U64Canonical(s: seq<Byte>)
    requires |s| >= WORD_BYTES
    ensures DecodeU64(s).Some? && EncodeU64(DecodeU64(s).value.0) == s[..WORD_BYTES]
  {
    Pow256Widths();
    EncodeDecodeLE(s[..WORD_BYTES]);
  }

  // ---- std::string ----

  /** The size as a size_t, then the bytes themselves. */
  function EncodeString(s: String): (r: seq<Byte>)
    ensures |r| == WORD_BYTES + |s|
    ensures r[WORD_BYTES..] == s
  {
    EncodeU64(|s|) + s
  }

  function DecodeString(s: seq<Byte>): (r: Option<(String, seq<Byte>)>)
    ensures |s| < WORD_BYTES ==> r.None?
    ensures r.Some? ==> WORD_BYTES + |r.value.0| <= |s| && r.value.1 == s[WORD_BYTES + |r.value.0|..]
  {
    match DecodeU64(s)
    case None => None
    case Some((size, rest)) =>
      if |rest| < size then None else Some((rest[..size], rest[size..]))
  }

  lemma StringRoundTrip(s: String, rest: seq<Byte>)
    ensures DecodeString(EncodeString(s) + rest) == Some((s, rest))
  {
    var e := EncodeU64(|s|);
    assert EncodeString(s) + rest == e + (s + rest);
    U64RoundTrip(|s|, s + rest);
    assert (s + rest)[..|s|] == s;
    assert (s + rest)[|s|..] == rest;
  }

  /** Decoding succeeds exactly on the streams that begin with a whole
      encoding, and then it splits off that encoding. */
  lemma StringDecodeCanonical(s: seq<Byte>)
    ensures DecodeString(s).Some? ==>
      s == EncodeString(DecodeString(s).value.0) + DecodeString(s).value.1
    ensures DecodeString(s).None? <==>
      |s| < WORD_BYTES || |s| < WORD_BYTES + DecodeU64(s).value.0
  {
    if |s| >= WORD_BYTES {
      U64Canonical(s);
      var size := DecodeU64(s).value.0;
      var rest := s[WORD_BYTES..];
      if |rest| >= size {
        assert s == s[..WORD_BYTES] + rest[..size] + rest[size..];
      }
    }
  }

  lemma Int32CodecLawful()
    ensures Lawful(Codec(EncodeInt32, DecodeInt32))
  {
    forall v: Int32, rest: seq<Byte> {
      Int32RoundTrip(v, rest);
    }
  }

  lemma StringCodecLawful()
    ensures Lawful(Codec(EncodeString, DecodeString))
  {
    forall v: String, rest: seq<Byte> {
      StringRoundTrip(v, rest);
    }
  }
}
