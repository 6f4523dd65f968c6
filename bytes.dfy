/**
 * Bytes, digests, Java's big-endian integer encodings and the reading
 * behaviour of `java.io.DataInputStream` over an in-memory byte sequence.
 *
 * Java bytes are signed; every place the system looks at a byte value it
 * masks it with `0xff`, so bytes are modelled as their unsigned value.
 */
module Bytes {

  type byte = x: int | 0 <= x < 256

  /** A SHA-256 output: always exactly 32 bytes. */
  type Digest = s: seq<byte> | |s| == 32 witness seq(32, _ => 0)

  /**
   * SHA-256 (`CryptoUtils.sha256`). The model never relies on anything but
   * the length of its result, so it is a parameter: every result below holds
   * for any function with 32-byte outputs.
   */
  type Hasher = seq<byte> -> Digest

  const MaxInt32: int := 0x7fff_ffff
  const MinInt32: int := -0x8000_0000
  const MaxInt64: int := 0x7fff_ffff_ffff_ffff
  const MinInt64: int := -0x8000_0000_0000_0000

  /** A Java `int`. */
  type Int32 = x: int | MinInt32 <= x <= MaxInt32
  /** A Java `long`. */
  type Int64 = x: int | MinInt64 <= x <= MaxInt64

  /** A Java `byte[]`: its length is a non-negative `int`. */
  type ByteArray = s: seq<byte> | |s| <= MaxInt32

  /** Everything that can abort the reading and framing code. */
  datatype Error =
    | EndOfStream          // EOFException from readInt/readLong/readBoolean/readFully
    | NegativeLength       // IllegalArgumentException: negative capacity or length
    | NullPointer          // NullPointerException
    | IndexOutOfBounds     // IndexOutOfBoundsException
    | SecurityFailure      // GeneralSecurityException from the crypto layer
    | UnexpectedStatus     // HttpResponseException: the server answered with another status

  datatype Result<+T> = Success(value: T) | Failure(error: Error)

  datatype Option<+T> = None | Some(value: T)

  function Pow256(n: nat): (p: nat)
    ensures p >= 1
  {
    if n == 0 then 1 else 256 * Pow256(n - 1)
  }

  lemma Pow256Widths()
    ensures Pow256(4) == 0x1_0000_0000
    ensures Pow256(8) == 0x1_0000_0000_0000_0000
  {
    assert Pow256(2) == 0x1_0000;
  }

  /** The `n`-byte big-endian encoding of `u`, most significant byte first. */
  function ToBigEndian(u: nat, n: nat): (s: seq<byte>)
    requires u < Pow256(n)
    ensures |s| == n
  {
    if n == 0 then [] else ToBigEndian(u / 256, n - 1) + [u % 256]
  }

  /** The unsigned value of a big-endian byte sequence. */
  function FromBigEndian(s: seq<byte>): (u: nat)
    ensures u < Pow256(|s|)
  {
    if s == [] then 0 else FromBigEndian(s[..|s| - 1]) * 256 + s[|s| - 1]
  }

  lemma {:induction false} BigEndianRoundTrip(u: nat, n: nat)
    requires u < Pow256(n)
    ensures FromBigEndian(ToBigEndian(u, n)) == u
  {
    if n > 0 {
      var s := ToBigEndian(u, n);
      assert s[..|s| - 1] == ToBigEndian(u / 256, n - 1);
      BigEndianRoundTrip(u / 256, n - 1);
    }
  }

  lemma {:induction false} FromBigEndianInjective(s: seq<byte>, t: seq<byte>)
    requires |s| == |t| && FromBigEndian(s) == FromBigEndian(t)
    ensures s == t
  {
    if s != [] {
      var n := |s|;
      assert s[n - 1] == FromBigEndian(s) % 256 && t[n - 1] == FromBigEndian(t) % 256;
      FromBigEndianInjective(s[..n - 1], t[..n - 1]);
      assert s == s[..n - 1] + [s[n - 1]] && t == t[..n - 1] + [t[n - 1]];
    }
  }

  /** `DataOutputStream.writeInt`: four bytes, two's complement, big-endian. */
  function WriteInt(x: Int32): (s: seq<byte>)
    ensures |s| == 4
  {
    ToBigEndian(if x < 0 then x + Pow256(4) else x, 4)
  }

  /** `DataOutputStream.writeLong`: eight bytes, two's complement, big-endian. */
  function WriteLong(x: Int64): (s: seq<byte>)
    ensures |s| == 8
  {
    ToBigEndian(if x < 0 then x + Pow256(8) else x, 8)
  }

  /** `DataOutputStream.writeBoolean`: 1 for true, 0 for false. */
  function WriteBoolean(b: bool): (s: seq<byte>)
    ensures |s| == 1
  {
    if b then [1] else [0]
  }

  /** The signed value of `n` big-endian bytes (two's complement). */
  function Signed(s: seq<byte>): int
  {
    var u := FromBigEndian(s);
    if s != [] && s[0] >= 128 then u - Pow256(|s|) else u
  }

  lemma {:induction false} FromBigEndianTop(s: seq<byte>)
    requires |s| > 0
    ensures s[0] >= 128 <==> FromBigEndian(s) >= Pow256(|s|) / 2
    ensures Pow256(|s|) % 2 == 0
  {
    if |s| == 1 {
      assert s[..0] == [];
    } else {
      var init := s[..|s| - 1];
      assert init[0] == s[0];
      FromBigEndianTop(init);
    }
  }

  lemma SignedWriteInt(x: Int32, rest: seq<byte>)
    ensures Signed(WriteInt(x)) == x
    ensures (WriteInt(x) + rest)[..4] == WriteInt(x)
  {
    var u := if x < 0 then x + Pow256(4) else x;
    BigEndianRoundTrip(u, 4);
    FromBigEndianTop(WriteInt(x));
  }

  lemma SignedWriteLong(x: Int64, rest: seq<byte>)
    ensures Signed(WriteLong(x)) == x
    ensures (WriteLong(x) + rest)[..8] == WriteLong(x)
  {
    var u := if x < 0 then x + Pow256(8) else x;
    BigEndianRoundTrip(u, 8);
    FromBigEndianTop(WriteLong(x));
  }

  /** Every eight bytes are the `writeLong` image of the value `readLong` makes of them. */
  lemma WriteLongSigned(s: seq<byte>)
    requires |s| == 8
    ensures MinInt64 <= Signed(s) <= MaxInt64
    ensures WriteLong(Signed(s)) == s
  {
    FromBigEndianTop(s);
    Pow256Widths();
    var u := FromBigEndian(s);
    var t := ToBigEndian(u, 8);
    BigEndianRoundTrip(u, 8);
    FromBigEndianInjective(t, s);
  }

  // ---------------------------------------------------------------------
  // DataInputStream over `data`, with the stream position as a cursor.
  // Each read returns the value and the new position, or the exception.
  // ---------------------------------------------------------------------

  /** `readInt`: EOF unless four bytes remain. */
  function ReadInt(data: seq<byte>, pos: nat): (r: Result<(Int32, nat)>)
    ensures r.Success? <==> pos + 4 <= |data|
    ensures r.Success? ==> r.value.1 == pos + 4
    ensures r.Failure? ==> r.error == EndOfStream
  {
    if pos + 4 <= |data| then
      FromBigEndianTop(data[pos..pos + 4]);
      Pow256Widths();
      Success((Signed(data[pos..pos + 4]), pos + 4))
    else Failure(EndOfStream)
  }

  /** `readLong`: EOF unless eight bytes remain. */
  function ReadLong(data: seq<byte>, pos: nat): (r: Result<(Int64, nat)>)
    ensures r.Success? <==> pos + 8 <= |data|
    ensures r.Success? ==> r.value.1 == pos + 8
    ensures r.Failure? ==> r.error == EndOfStream
  {
    if pos + 8 <= |data| then
      FromBigEndianTop(data[pos..pos + 8]);
      Pow256Widths();
      Success((Signed(data[pos..pos + 8]), pos + 8))
    else Failure(EndOfStream)
  }

  /** `readBoolean`: any nonzero byte reads as true; EOF at the end. */
  function ReadBoolean(data: seq<byte>, pos: nat): (r: Result<(bool, nat)>)
    ensures r.Success? <==> pos < |data|
    ensures r.Success? ==> r.value == (data[pos] != 0, pos + 1)
    ensures r.Failure? ==> r.error == EndOfStream
  {
    if pos < |data| then Success((data[pos] != 0, pos + 1)) else Failure(EndOfStream)
  }

  /** `readFully` into an `n`-byte array: EOF unless `n` bytes remain. */
  function ReadFully(data: seq<byte>, pos: nat, n: nat): (r: Result<(seq<byte>, nat)>)
    ensures r.Success? <==> pos + n <= |data|
    ensures r.Success? ==> r.value == (data[pos..pos + n], pos + n)
    ensures r.Failure? ==> r.error == EndOfStream
  {
    if pos + n <= |data| then Success((data[pos..pos + n], pos + n)) else Failure(EndOfStream)
  }

  /**
   * `readNBytes(len)`: a negative length throws; otherwise reads at most
   * `len` bytes and silently returns fewer at the end of the stream.
   */
  function ReadNBytes(data: seq<byte>, pos: nat, len: int): (r: Result<(seq<byte>, nat)>)
    requires pos <= |data|
    ensures r.Success? <==> len >= 0
    ensures r.Failure? ==> r.error == NegativeLength
    ensures r.Success? ==> pos <= r.value.1 <= |data| && r.value.0 == data[pos..r.value.1]
    ensures r.Success? ==> |r.value.0| == (if len <= |data| - pos then len else |data| - pos)
  {
    if len < 0 then Failure(NegativeLength)
    else
      var end := if len <= |data| - pos then pos + len else |data|;
      Success((data[pos..end], end))
  }
}
