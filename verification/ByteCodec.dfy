/** Byte strings, Python slices, and the big-endian `struct` fields the codecs use. */
module ByteCodec {
  import opened Prelude

  type Byte = x: int | 0 <= x < 0x100
  type Bytes = seq<Byte>

  const U32_LIMIT := 0x1_0000_0000

  predicate FitsI16(v: int) {
    -0x8000 <= v < 0x8000
  }

  predicate FitsI32(v: int) {
    -0x8000_0000 <= v < 0x8000_0000
  }

  /** SHA-256 is left uninterpreted: any function to 32-byte digests. */
  type Sha256 = h: Bytes -> Bytes | forall b :: |h(b)| == 32 witness (b: Bytes) => seq(32, i => 0)

  /** Python's `s[lo:hi]` for non-negative bounds: both ends are clamped. */
  function Slice<T>(s: seq<T>, lo: nat, hi: nat): (r: seq<T>)
    ensures hi <= |s| && lo <= hi ==> r == s[lo..hi]
    ensures |r| <= |s|
  {
    var h := if hi <= |s| then hi else |s|;
    if lo <= h then s[lo..h] else []
  }

  /** Python's `b"".join(parts)`. */
  function Join<T>(parts: seq<seq<T>>): seq<T> {
    if parts == [] then [] else parts[0] + Join(parts[1..])
  }

  lemma {:induction false} JoinAppend<T>(parts: seq<seq<T>>, last: seq<T>)
    ensures Join(parts + [last]) == Join(parts) + last
  {
    if parts == [] {
      assert parts + [last] == [last];
      assert Join([last]) == last + Join<T>([]);
    } else {
      assert (parts + [last])[1..] == parts[1..] + [last];
      JoinAppend(parts[1..], last);
    }
  }

  // ----- unsigned fields ---------------------------------------------------

  function U16(n: nat): (b: Bytes)
    requires n < 0x1_0000
    ensures |b| == 2
  {
    [n / 0x100, n % 0x100]
  }

  function ReadU16(b: Bytes, at: nat): (n: nat)
    requires at + 2 <= |b|
    ensures n < 0x1_0000
  {
    var hi: int, lo: int := b[at], b[at + 1];
    hi * 0x100 + lo
  }

  /** `struct.pack(">I", n)`. */
  function U32(n: nat): (b: Bytes)
    requires n < U32_LIMIT
    ensures |b| == 4
  {
    U16(n / 0x1_0000) + U16(n % 0x1_0000)
  }

  /** `struct.unpack(">I", b[at:at+4])`. */
  function ReadU32(b: Bytes, at: nat): (n: nat)
    requires at + 4 <= |b|
    ensures n < U32_LIMIT
  {
    ReadU16(b, at) * 0x1_0000 + ReadU16(b, at + 2)
  }

  lemma ReadU16OfPacked(pre: Bytes, n: nat, post: Bytes)
    requires n < 0x1_0000
    ensures ReadU16(pre + U16(n) + post, |pre|) == n
  {
  }

  lemma ReadU32OfPacked(pre: Bytes, n: nat, post: Bytes)
    requires n < U32_LIMIT
    ensures ReadU32(pre + U32(n) + post, |pre|) == n
  {
    var hi, lo := U16(n / 0x1_0000), U16(n % 0x1_0000);
    assert pre + U32(n) + post == pre + hi + (lo + post);
    ReadU16OfPacked(pre, n / 0x1_0000, lo + post);
    assert pre + U32(n) + post == (pre + hi) + lo + post;
    ReadU16OfPacked(pre + hi, n % 0x1_0000, post);
  }

  // ----- signed (two's complement) fields ------------------------------------

  /** `struct.pack(">h", v)`. */
  function I16(v: int): (b: Bytes)
    requires FitsI16(v)
    ensures |b| == 2
  {
    U16(if v < 0 then v + 0x1_0000 else v)
  }

  function ReadI16(b: Bytes, at: nat): (v: int)
    requires at + 2 <= |b|
    ensures FitsI16(v)
  {
    var n := ReadU16(b, at);
    if n < 0x8000 then n else n - 0x1_0000
  }

  /** `struct.pack(">i", v)`. */
  function I32(v: int): (b: Bytes)
    requires FitsI32(v)
    ensures |b| == 4
  {
    U32(if v < 0 then v + U32_LIMIT else v)
  }

  function ReadI32(b: Bytes, at: nat): (v: int)
    requires at + 4 <= |b|
    ensures FitsI32(v)
  {
    var n := ReadU32(b, at);
    if n < 0x8000_0000 then n else n - U32_LIMIT
  }

  lemma ReadI16OfPacked(pre: Bytes, v: int, post: Bytes)
    requires FitsI16(v)
    ensures ReadI16(pre + I16(v) + post, |pre|) == v
  {
    ReadU16OfPacked(pre, if v < 0 then v + 0x1_0000 else v, post);
  }

  lemma ReadI32OfPacked(pre: Bytes, v: int, post: Bytes)
    requires FitsI32(v)
    ensures ReadI32(pre + I32(v) + post, |pre|) == v
  {
    ReadU32OfPacked(pre, if v < 0 then v + U32_LIMIT else v, post);
  }

  // ----- reading a field inside a longer string --------------------------------

  /** The bytes found at `at` are exactly `field`. */
  predicate At(b: Bytes, at: nat, field: Bytes) {
    at + |field| <= |b| && b[at..at + |field|] == field
  }

  lemma AtSplit(b: Bytes, at: nat, f: Bytes, g: Bytes)
    requires At(b, at, f + g)
    ensures At(b, at, f) && At(b, at + |f|, g)
  {
    var w := b[at..at + |f + g|];
    assert w[..|f|] == f && w[|f|..] == g;
    assert b[at..at + |f|] == w[..|f|];
    assert b[at + |f|..at + |f| + |g|] == w[|f|..];
  }

  lemma ReadU32At(b: Bytes, at: nat, n: nat)
    requires n < U32_LIMIT && At(b, at, U32(n))
    ensures ReadU32(b, at) == n
  {
    ReadU32OfPacked(b[..at], n, b[at + 4..]);
    assert b == b[..at] + U32(n) + b[at + 4..];
  }

  lemma ReadI16At(b: Bytes, at: nat, v: int)
    requires FitsI16(v) && At(b, at, I16(v))
    ensures ReadI16(b, at) == v
  {
    ReadI16OfPacked(b[..at], v, b[at + 2..]);
    assert b == b[..at] + I16(v) + b[at + 2..];
  }

  lemma ReadI32At(b: Bytes, at: nat, v: int)
    requires FitsI32(v) && At(b, at, I32(v))
    ensures ReadI32(b, at) == v
  {
    ReadI32OfPacked(b[..at], v, b[at + 4..]);
    assert b == b[..at] + I32(v) + b[at + 4..];
  }

  // ----- the fields byte by byte ---------------------------------------------------

  /** Fields are big-endian: the first byte weighs most. */
  lemma U16Bytes(n: nat)
    requires n < 0x1_0000
    ensures var hi: int, lo: int := U16(n)[0], U16(n)[1]; n == hi * 0x100 + lo
  {
  }

  lemma U32Bytes(n: nat)
    requires n < U32_LIMIT
    ensures var a: int, b: int, c: int, d: int := U32(n)[0], U32(n)[1], U32(n)[2], U32(n)[3];
            n == a * 0x100_0000 + b * 0x1_0000 + c * 0x100 + d
  {
    hide U16;
    U16Bytes(n / 0x1_0000);
    U16Bytes(n % 0x1_0000);
    var hi, lo := U16(n / 0x1_0000), U16(n % 0x1_0000);
    assert U32(n)[0] == hi[0] && U32(n)[1] == hi[1] && U32(n)[2] == lo[0] && U32(n)[3] == lo[1];
  }

  /** Signed fields are two's complement. */
  lemma SignedBytes(v: int)
    ensures FitsI16(v) ==> I16(v) == U16(v % 0x1_0000)
    ensures FitsI32(v) ==> I32(v) == U32(v % U32_LIMIT)
  {
    if FitsI16(v) {
      assert v % 0x1_0000 == if v < 0 then v + 0x1_0000 else v;
    }
    if FitsI32(v) {
      assert v % U32_LIMIT == if v < 0 then v + U32_LIMIT else v;
    }
  }

  /** Whatever bytes a field is read from, they are the field's bytes. */
  lemma U16OfRead(b: Bytes, at: nat)
    requires at + 2 <= |b|
    ensures At(b, at, U16(ReadU16(b, at)))
  {
  }

  lemma U32OfRead(b: Bytes, at: nat)
    requires at + 4 <= |b|
    ensures At(b, at, U32(ReadU32(b, at)))
  {
    hide ReadU16, U16;
    var hi, lo := ReadU16(b, at), ReadU16(b, at + 2);
    assert (hi * 0x1_0000 + lo) / 0x1_0000 == hi && (hi * 0x1_0000 + lo) % 0x1_0000 == lo;
    U16OfRead(b, at);
    U16OfRead(b, at + 2);
    AtJoin(b, at, U16(hi), U16(lo));
  }

  lemma I16OfRead(b: Bytes, at: nat)
    requires at + 2 <= |b|
    ensures At(b, at, I16(ReadI16(b, at)))
  {
    hide ReadU16, U16, At;
    U16OfRead(b, at);
  }

  lemma I32OfRead(b: Bytes, at: nat)
    requires at + 4 <= |b|
    ensures At(b, at, I32(ReadI32(b, at)))
  {
    hide ReadU32, U32, At;
    U32OfRead(b, at);
  }

  lemma AtJoin(b: Bytes, at: nat, f: Bytes, g: Bytes)
    requires At(b, at, f) && At(b, at + |f|, g)
    ensures At(b, at, f + g)
  {
    var m, e := at + |f|, at + |f| + |g|;
    assert b[at..e] == b[at..m] + b[m..e];
  }
}
