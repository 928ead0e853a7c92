/** Bytes and the fixed-width integer encodings of .NET's BitConverter (little-endian). */
module Bytes {
  import opened Wrappers

  newtype byte = x: int | 0 <= x < 256

  /** 256 to the power k: the number of values `k` bytes can hold. */
  function Pow256(k: nat): (p: nat)
    ensures p >= 1
  {
    if k == 0 then 1 else 256 * Pow256(k - 1)
  }

  /** The `width` low-order bytes of n, least significant first (BitConverter.GetBytes). */
  function ToLittleEndian(n: nat, width: nat): (r: seq<byte>)
    ensures |r| == width
  {
    if width == 0 then [] else [(n % 256) as byte] + ToLittleEndian(n / 256, width - 1)
  }

  /** The unsigned number whose little-endian bytes are b. */
  function FromLittleEndian(b: seq<byte>): (n: nat)
    ensures n < Pow256(|b|)
  {
    if b == [] then 0 else b[0] as nat + 256 * FromLittleEndian(b[1..])
  }

  lemma {:induction false} FromToLittleEndian(n: nat, width: nat)
    requires n < Pow256(width)
    ensures FromLittleEndian(ToLittleEndian(n, width)) == n
  {
    if width > 0 {
      FromToLittleEndian(n / 256, width - 1);
      assert ToLittleEndian(n, width)[1..] == ToLittleEndian(n / 256, width - 1);
    }
  }

  lemma {:induction false} ToFromLittleEndian(b: seq<byte>)
    ensures ToLittleEndian(FromLittleEndian(b), |b|) == b
  {
    if b != [] {
      var n := FromLittleEndian(b);
      assert n % 256 == b[0] as nat && n / 256 == FromLittleEndian(b[1..]);
      ToFromLittleEndian(b[1..]);
    }
  }

  /** Two's-complement bytes of a signed value (BitConverter.GetBytes of Int16/Int32/Int64). */
  function SignedToBytes(i: int, width: nat): (r: seq<byte>)
    requires InSignedRange(i, width)
    ensures |r| == width
  {
    ToLittleEndian(if i < 0 then i + Pow256(width) else i, width)
  }

  /** The signed value of `width` bytes read as two's complement. */
  function SignedFromBytes(b: seq<byte>): int
  {
    var n := FromLittleEndian(b);
    if 2 * n >= Pow256(|b|) then n - Pow256(|b|) else n
  }

  /** The range of a signed integer of `width` bytes. */
  predicate InSignedRange(i: int, width: nat)
  {
    -(Pow256(width) as int) <= 2 * i < Pow256(width)
  }

  lemma SignedRoundTrip(i: int, width: nat)
    requires InSignedRange(i, width)
    ensures SignedFromBytes(SignedToBytes(i, width)) == i
  {
    FromToLittleEndian(if i < 0 then i + Pow256(width) else i, width);
  }

  /** BitConverter.ToUInt16/32/64(b, 0): the first `width` bytes, or ArgumentException when b is shorter. */
  function ReadUnsigned(b: seq<byte>, width: nat): (r: Outcome<nat>)
    ensures r.Ok? <==> |b| >= width
    ensures r.Ok? ==> r.value < Pow256(width) && ToLittleEndian(r.value, width) == b[..width]
  {
    if |b| < width then Threw(ArgumentError)
    else
      ToFromLittleEndian(b[..width]);
      Ok(FromLittleEndian(b[..width]))
  }

  /** BitConverter.ToInt16/32/64(b, 0). */
  function ReadSigned(b: seq<byte>, width: nat): (r: Outcome<int>)
    ensures r.Ok? <==> |b| >= width
  {
    if |b| < width then Threw(ArgumentError) else Ok(SignedFromBytes(b[..width]))
  }

  /** BitConverter.GetBytes(bool): one byte, 1 for true. */
  function BoolToBytes(x: bool): seq<byte>
  {
    if x then [1] else [0]
  }

  /** BitConverter.ToBoolean(b, 0): true iff the first byte is non-zero. */
  function ReadBool(b: seq<byte>): (r: Outcome<bool>)
    ensures r.Ok? <==> |b| >= 1
    ensures r.Ok? ==> r.value == (b[0] != 0)
  {
    if |b| < 1 then Threw(ArgumentError) else Ok(b[0] != 0)
  }

  lemma {:induction false} ReadUnsignedOfEncoding(n: nat, width: nat, rest: seq<byte>)
    requires n < Pow256(width)
    ensures ReadUnsigned(ToLittleEndian(n, width) + rest, width) == Ok(n)
  {
    assert (ToLittleEndian(n, width) + rest)[..width] == ToLittleEndian(n, width);
    FromToLittleEndian(n, width);
  }

  lemma ReadSignedOfEncoding(i: int, width: nat)
    requires InSignedRange(i, width)
    ensures ReadSigned(SignedToBytes(i, width), width) == Ok(i)
  {
    assert SignedToBytes(i, width)[..width] == SignedToBytes(i, width);
    SignedRoundTrip(i, width);
  }

  lemma ReadBoolOfEncoding(x: bool)
    ensures ReadBool(BoolToBytes(x)) == Ok(x)
  {
  }

  /** The all-zero bit pattern of `width` bytes: +0.0 as a float or double. */
  function ZeroBits(width: nat): (b: seq<byte>)
    ensures |b| == width
  {
    seq(width, _ => 0 as byte)
  }
}
