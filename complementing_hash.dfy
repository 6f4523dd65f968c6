/**
 * One step of an inclusion proof (`ComplementingHash`) and the binary codec
 * for a list of steps: a 4-byte big-endian count, then per step a `left`
 * byte, a presence byte and, when present, the 32 hash bytes.
 */
module ComplementingHashes {
  import opened Bytes

  /**
   * `left`: the complementing (sibling) hash sits to the left of the running
   * hash. `sha256`: the sibling's hash, or None when the level had no sibling.
   */
  datatype ComplementingHash = ComplementingHash(left: bool, sha256: Option<seq<byte>>)

  /** The number of bytes `read` fills for a present hash (`256 / 8`). */
  const HashLength: nat := 32

  // ---------------------------------------------------------------------
  // write
  // ---------------------------------------------------------------------

  function EncodeEntry(c: ComplementingHash): (s: seq<byte>)
    ensures |s| == 2 + (if c.sha256.Some? then |c.sha256.value| else 0)
  {
    WriteBoolean(c.left) + WriteBoolean(c.sha256.Some?)
    + (if c.sha256.Some? then c.sha256.value else [])
  }

  function EncodeEntries(cs: seq<ComplementingHash>): seq<byte>
  {
    if cs == [] then [] else EncodeEntry(cs[0]) + EncodeEntries(cs[1..])
  }

  /** The bytes `write` emits for the list `cs`. */
  function Encode(cs: seq<ComplementingHash>): seq<byte>
    requires |cs| <= MaxInt32
  {
    WriteInt(|cs|) + EncodeEntries(cs)
  }

  /** The number of bytes a list of well-formed steps occupies on the wire. */
  function WireSize(cs: seq<ComplementingHash>): nat
  {
    if cs == [] then 0
    else 2 + (if cs[0].sha256.Some? then HashLength else 0) + WireSize(cs[1..])
  }

  /** Every present hash has the length `read` expects. */
  predicate WellFormed(cs: seq<ComplementingHash>)
  {
    forall i :: 0 <= i < |cs| && cs[i].sha256.Some? ==> |cs[i].sha256.value| == HashLength
  }

  lemma {:induction false} EncodeEntriesAppend(cs: seq<ComplementingHash>, c: ComplementingHash)
    ensures EncodeEntries(cs + [c]) == EncodeEntries(cs) + EncodeEntry(c)
  {
    if cs == [] {
      assert [] + [c] == [c];
    } else {
      assert (cs + [c])[1..] == cs[1..] + [c];
      EncodeEntriesAppend(cs[1..], c);
    }
  }

  /** `ComplementingHash.write`: the count, then each step in order. */
  method Write(cs: seq<ComplementingHash>) returns (out: seq<byte>)
    requires |cs| <= MaxInt32
    ensures out == Encode(cs)
  {
    out := WriteInt(|cs|);
    ghost var header := out;
    for i := 0 to |cs|
      invariant out == header + EncodeEntries(cs[..i])
    {
      var c := cs[i];
      ghost var prev := out;
      out := out + WriteBoolean(c.left);
      out := out + WriteBoolean(c.sha256.Some?);
      if c.sha256.Some? {
        out := out + c.sha256.value;
        assert out == prev + EncodeEntry(c) by {
          assert EncodeEntry(c) == WriteBoolean(c.left) + WriteBoolean(true) + c.sha256.value;
        }
      } else {
        assert out == prev + EncodeEntry(c) by {
          assert EncodeEntry(c) == WriteBoolean(c.left) + WriteBoolean(false) + [];
        }
      }
      assert EncodeEntries(cs[..i + 1]) == EncodeEntries(cs[..i]) + EncodeEntry(c) by {
        EncodeEntriesAppend(cs[..i], c);
        assert cs[..i + 1] == cs[..i] + [c];
      }
    }
    assert cs[..|cs|] == cs;
  }

  // ---------------------------------------------------------------------
  // read
  // ---------------------------------------------------------------------

  /** One step read at `pos`: two boolean bytes, then 32 bytes if present. */
  function ReadEntry(data: seq<byte>, pos: nat): (r: Result<(ComplementingHash, nat)>)
    ensures r.Success? ==> pos < r.value.1 <= |data|
    ensures r.Failure? ==> r.error == EndOfStream
  {
    match ReadBoolean(data, pos)
    case Failure(e) => Failure(e)
    case Success((left, p1)) =>
      match ReadBoolean(data, p1)
      case Failure(e) => Failure(e)
      case Success((isPresent, p2)) =>
        if isPresent then
          match ReadFully(data, p2, HashLength)
          case Failure(e) => Failure(e)
          case Success((hash, p3)) => Success((ComplementingHash(left, Some(hash)), p3))
        else Success((ComplementingHash(left, None), p2))
  }

  /** `n` steps read one after the other from `pos`. */
  function ReadEntries(data: seq<byte>, pos: nat, n: nat): (r: Result<(seq<ComplementingHash>, nat)>)
    ensures r.Success? ==> |r.value.0| == n && pos <= r.value.1
    ensures r.Success? && n > 0 ==> r.value.1 <= |data|
    ensures r.Failure? ==> r.error == EndOfStream
    decreases n
  {
    if n == 0 then Success(([], pos))
    else
      match ReadEntry(data, pos)
      case Failure(e) => Failure(e)
      case Success((c, p)) =>
        match ReadEntries(data, p, n - 1)
        case Failure(e) => Failure(e)
        case Success((cs, q)) => Success(([c] + cs, q))
  }

  /**
   * What `read` returns when the stream holds `data` and is at `pos`: the
   * steps and the new stream position, or the exception. A negative count
   * makes `new ArrayList<>(size)` throw before any step is read.
   */
  function Decode(data: seq<byte>, pos: nat): Result<(seq<ComplementingHash>, nat)>
  {
    match ReadInt(data, pos)
    case Failure(e) => Failure(e)
    case Success((size, p)) =>
      if size < 0 then Failure(NegativeLength) else ReadEntries(data, p, size)
  }

  /** Prepend the steps read so far to the outcome of reading the rest. */
  function Prepend(done: seq<ComplementingHash>, r: Result<(seq<ComplementingHash>, nat)>)
    : Result<(seq<ComplementingHash>, nat)>
  {
    match r
    case Failure(e) => Failure(e)
    case Success((cs, q)) => Success((done + cs, q))
  }

  lemma PrependTwice(done: seq<ComplementingHash>, c: ComplementingHash, r: Result<(seq<ComplementingHash>, nat)>)
    ensures Prepend(done, Prepend([c], r)) == Prepend(done + [c], r)
  {
    if r.Success? {
      assert done + ([c] + r.value.0) == (done + [c]) + r.value.0;
    }
  }

  /** `ComplementingHash.read`: the count, then that many steps, advancing the cursor. */
  method Read(data: seq<byte>, pos: nat) returns (r: Result<(seq<ComplementingHash>, nat)>)
    ensures r == Decode(data, pos)
  {
    var header := ReadInt(data, pos);
    if header.Failure? {
      return Failure(header.error);
    }
    var (size, p) := header.value;
    if size < 0 {
      return Failure(NegativeLength);
    }
    var hashes: seq<ComplementingHash> := [];
    var cursor := p;
    assert Decode(data, pos) == ReadEntries(data, p, size);
    assert Prepend([], ReadEntries(data, p, size)) == ReadEntries(data, p, size) by {
      if ReadEntries(data, p, size).Success? {
        assert [] + ReadEntries(data, p, size).value.0 == ReadEntries(data, p, size).value.0;
      }
    }
    for i := 0 to size
      invariant |hashes| == i
      invariant Decode(data, pos) == Prepend(hashes, ReadEntries(data, cursor, size - i))
    {
      ghost var before := cursor;
      var leftByte := ReadBoolean(data, cursor);
      if leftByte.Failure? {
        return Failure(leftByte.error);
      }
      var isPresent := ReadBoolean(data, leftByte.value.1);
      if isPresent.Failure? {
        return Failure(isPresent.error);
      }
      var hash: Option<seq<byte>> := None;
      cursor := isPresent.value.1;
      if isPresent.value.0 {
        var full := ReadFully(data, cursor, HashLength);
        if full.Failure? {
          return Failure(full.error);
        }
        hash := Some(full.value.0);
        cursor := full.value.1;
      }
      var c := ComplementingHash(leftByte.value.0, hash);
      assert ReadEntry(data, before) == Success((c, cursor));
      PrependTwice(hashes, c, ReadEntries(data, cursor, size - i - 1));
      hashes := hashes + [c];
    }
    assert Prepend(hashes, Success(([], cursor))) == Success((hashes, cursor)) by {
      assert hashes + [] == hashes;
    }
    return Success((hashes, cursor));
  }

  // ---------------------------------------------------------------------
  // Properties of the codec
  // ---------------------------------------------------------------------

  /** A step whose encoding sits at `pos` is read back, and the cursor moves past it. */
  lemma ReadEntryEncoded(data: seq<byte>, pos: nat, c: ComplementingHash)
    requires c.sha256.Some? ==> |c.sha256.value| == HashLength
    requires pos + |EncodeEntry(c)| <= |data| && data[pos..pos + |EncodeEntry(c)|] == EncodeEntry(c)
    ensures ReadEntry(data, pos) == Success((c, pos + |EncodeEntry(c)|))
  {
    var e := EncodeEntry(c);
    assert data[pos] == e[0] == (if c.left then 1 else 0);
    assert data[pos + 1] == e[1] == (if c.sha256.Some? then 1 else 0);
    if c.sha256.Some? {
      assert data[pos + 2..pos + 2 + HashLength] == e[2..] == c.sha256.value;
    }
  }

  lemma WellFormedTail(cs: seq<ComplementingHash>)
    requires cs != [] && WellFormed(cs)
    ensures WellFormed(cs[1..])
  {
    forall i | 0 <= i < |cs[1..]| && cs[1..][i].sha256.Some?
      ensures |cs[1..][i].sha256.value| == HashLength
    {
      assert cs[1..][i] == cs[i + 1];
    }
  }

  /** Well-formed steps whose encoding sits at `pos` are read back, and the cursor moves past them. */
  lemma {:induction false} ReadEntriesEncoded(data: seq<byte>, pos: nat, cs: seq<ComplementingHash>)
    requires WellFormed(cs)
    requires pos + |EncodeEntries(cs)| <= |data| && data[pos..pos + |EncodeEntries(cs)|] == EncodeEntries(cs)
    ensures ReadEntries(data, pos, |cs|) == Success((cs, pos + |EncodeEntries(cs)|))
    decreases |cs|
  {
    if cs != [] {
      var c, tail := cs[0], cs[1..];
      var mid := pos + |EncodeEntry(c)|;
      var end := pos + |EncodeEntries(cs)|;
      assert EncodeEntries(cs) == EncodeEntry(c) + EncodeEntries(tail);
      assert ReadEntry(data, pos) == Success((c, mid)) by {
        assert data[pos..mid] == data[pos..end][..|EncodeEntry(c)|];
        ReadEntryEncoded(data, pos, c);
      }
      assert ReadEntries(data, mid, |tail|) == Success((tail, end)) by {
        assert data[mid..end] == data[pos..end][|EncodeEntry(c)|..];
        WellFormedTail(cs);
        ReadEntriesEncoded(data, mid, tail);
      }
      ReadEntriesCons(data, pos, c, tail, mid, end);
      assert [c] + tail == cs;
    }
  }

  lemma ReadEntriesCons(data: seq<byte>, pos: nat, c: ComplementingHash, tail: seq<ComplementingHash>, mid: nat, end: nat)
    requires ReadEntry(data, pos) == Success((c, mid))
    requires ReadEntries(data, mid, |tail|) == Success((tail, end))
    ensures ReadEntries(data, pos, |tail| + 1) == Success(([c] + tail, end))
  {
  }

  /**
   * Round trip: what `write` emits, `read` gives back, whatever follows it in
   * the stream, provided every present hash has the 32 bytes `read` expects.
   * The stream is left just after the proof.
   */
  lemma RoundTrip(cs: seq<ComplementingHash>, rest: seq<byte>)
    requires |cs| <= MaxInt32 && WellFormed(cs)
    ensures Decode(Encode(cs) + rest, 0) == Success((cs, |Encode(cs)|))
  {
    var data := Encode(cs) + rest;
    SignedWriteInt(|cs|, EncodeEntries(cs) + rest);
    assert data[0..4] == WriteInt(|cs|);
    assert data[4..4 + |EncodeEntries(cs)|] == EncodeEntries(cs);
    ReadEntriesEncoded(data, 4, cs);
    assert data == WriteInt(|cs|) + EncodeEntries(cs) + rest;
  }

  lemma {:induction false} EncodeEntriesSize(cs: seq<ComplementingHash>)
    requires WellFormed(cs)
    ensures |EncodeEntries(cs)| == WireSize(cs)
  {
    if cs != [] {
      WellFormedTail(cs);
      EncodeEntriesSize(cs[1..]);
    }
  }

  lemma {:induction false} ReadEntriesShape(data: seq<byte>, pos: nat, n: nat)
    requires ReadEntries(data, pos, n).Success?
    ensures WellFormed(ReadEntries(data, pos, n).value.0)
    ensures ReadEntries(data, pos, n).value.1 == pos + WireSize(ReadEntries(data, pos, n).value.0)
    decreases n
  {
    if n > 0 {
      var (c, p) := ReadEntry(data, pos).value;
      ReadEntriesShape(data, p, n - 1);
      var cs := ReadEntries(data, pos, n).value.0;
      assert cs[1..] == ReadEntries(data, p, n - 1).value.0;
      forall i | 0 <= i < |cs| && cs[i].sha256.Some?
        ensures |cs[i].sha256.value| == HashLength
      {
        if i > 0 {
          assert cs[i] == cs[1..][i - 1];
        }
      }
    }
  }

  /**
   * A successful `read` returns only 32-byte hashes and consumes exactly the
   * count and the steps: 4 + sum of (2 + 32 if present) bytes, leaving the
   * rest of the stream to the caller.
   */
  lemma DecodeShape(data: seq<byte>, pos: nat)
    requires Decode(data, pos).Success?
    ensures WellFormed(Decode(data, pos).value.0)
    ensures Decode(data, pos).value.1 == pos + 4 + WireSize(Decode(data, pos).value.0)
    ensures Decode(data, pos).value.1 <= |data|
  {
    var (size, p) := ReadInt(data, pos).value;
    ReadEntriesShape(data, p, size);
  }

  /** A successful `read` consumes exactly as many bytes as `write` emits for its result. */
  lemma DecodeLength(data: seq<byte>, pos: nat)
    requires Decode(data, pos).Success?
    ensures |Decode(data, pos).value.0| <= MaxInt32
    ensures Decode(data, pos).value.1 - pos == |Encode(Decode(data, pos).value.0)|
  {
    DecodeShape(data, pos);
    EncodeEntriesSize(Decode(data, pos).value.0);
  }

  /**
   * `read` fails exactly when the count is cut short, the count is negative,
   * or the steps it announces are cut short; only a negative count fails
   * with anything but end of stream.
   */
  lemma DecodeFailures(data: seq<byte>, pos: nat)
    ensures pos + 4 > |data| ==> Decode(data, pos) == Failure(EndOfStream)
    ensures pos + 4 <= |data| && data[pos] >= 128 ==> Decode(data, pos) == Failure(NegativeLength)
    ensures pos + 4 <= |data| && data[pos] < 128 && Decode(data, pos).Failure?
            ==> Decode(data, pos) == Failure(EndOfStream)
    ensures pos + 4 <= |data| && data[pos] < 128 && FromBigEndian(data[pos..pos + 4]) == 0
            ==> Decode(data, pos) == Success(([], pos + 4))
  {
    if pos + 4 <= |data| {
      FromBigEndianTop(data[pos..pos + 4]);
    }
  }

  /** A step whose encoding is cut short at the end of the data fails with end of stream. */
  lemma ReadEntryTruncated(data: seq<byte>, pos: nat, c: ComplementingHash)
    requires c.sha256.Some? ==> |c.sha256.value| == HashLength
    requires pos <= |data| < pos + |EncodeEntry(c)|
    requires data[pos..] == EncodeEntry(c)[..|data| - pos]
    ensures ReadEntry(data, pos) == Failure(EndOfStream)
  {
    if pos + 2 <= |data| {
      assert c.sha256.Some?;
      assert data[pos + 1] == data[pos..][1] == EncodeEntry(c)[1] == 1;
      assert ReadBoolean(data, pos + 1) == Success((true, pos + 2));
    }
  }

  /** Steps whose encoding is cut short at the end of the data fail with end of stream. */
  lemma {:induction false} ReadEntriesTruncated(data: seq<byte>, pos: nat, cs: seq<ComplementingHash>)
    requires WellFormed(cs)
    requires pos <= |data| < pos + |EncodeEntries(cs)|
    requires data[pos..] == EncodeEntries(cs)[..|data| - pos]
    ensures ReadEntries(data, pos, |cs|) == Failure(EndOfStream)
    decreases |cs|
  {
    var c, tail := cs[0], cs[1..];
    var e := EncodeEntry(c);
    assert EncodeEntries(cs) == e + EncodeEntries(tail);
    if |data| < pos + |e| {
      assert data[pos..] == e[..|data| - pos];
      ReadEntryTruncated(data, pos, c);
    } else {
      var mid := pos + |e|;
      assert data[pos..mid] == data[pos..][..|e|] == e;
      ReadEntryEncoded(data, pos, c);
      WellFormedTail(cs);
      var rest := EncodeEntries(tail);
      assert data[pos..] == (e + rest)[..|data| - pos];
      assert (e + rest)[..|data| - pos][|e|..] == rest[..|data| - mid];
      assert data[mid..] == data[pos..][|e|..] == rest[..|data| - mid];
      ReadEntriesTruncated(data, mid, tail);
    }
  }

  /** `read` on any proper prefix of what `write` emits fails with end of stream. */
  lemma DecodeTruncated(cs: seq<ComplementingHash>, k: nat)
    requires |cs| <= MaxInt32 && WellFormed(cs)
    requires k < |Encode(cs)|
    ensures Decode(Encode(cs)[..k], 0) == Failure(EndOfStream)
  {
    var data := Encode(cs)[..k];
    if 4 <= k {
      SignedWriteInt(|cs|, EncodeEntries(cs));
      assert data[0..4] == WriteInt(|cs|);
      assert data[4..] == EncodeEntries(cs)[..k - 4];
      ReadEntriesTruncated(data, 4, cs);
    }
  }

  /** Decoding, re-encoding and decoding again gives the same steps. */
  lemma DecodeEncodeStable(data: seq<byte>, pos: nat, rest: seq<byte>)
    requires Decode(data, pos).Success?
    ensures |Decode(data, pos).value.0| <= MaxInt32
    ensures Decode(Encode(Decode(data, pos).value.0) + rest, 0).Success?
    ensures Decode(Encode(Decode(data, pos).value.0) + rest, 0).value.0 == Decode(data, pos).value.0
  {
    DecodeShape(data, pos);
    DecodeLength(data, pos);
    RoundTrip(Decode(data, pos).value.0, rest);
  }

  /**
   * The round trip holds in the encode-then-decode direction only: `read`
   * accepts any nonzero flag byte as true, and `write` then emits 1.
   */
  lemma FromBigEndianOne()
    ensures FromBigEndian([0, 0, 0, 1]) == 1
  {
    assert [0, 0, 0, 1][..3] == [0, 0, 0];
    assert [0, 0, 0][..2] == [0, 0];
    assert [0, 0][..1] == [0];
    assert [0][..0] == [];
  }

  lemma WriteIntOne()
    ensures WriteInt(1) == [0, 0, 0, 1]
  {
    assert ToBigEndian(1, 4) == ToBigEndian(0, 3) + [1];
    assert ToBigEndian(0, 3) == ToBigEndian(0, 2) + [0];
    assert ToBigEndian(0, 2) == ToBigEndian(0, 1) + [0];
  }

  lemma FlagsAreNormalised()
    ensures Decode([0, 0, 0, 1, 2, 0], 0) == Success(([ComplementingHash(true, None)], 6))
    ensures Encode([ComplementingHash(true, None)]) == [0, 0, 0, 1, 1, 0]
  {
    var data: seq<byte> := [0, 0, 0, 1, 2, 0];
    var c := ComplementingHash(true, None);
    assert data[0..4] == [0, 0, 0, 1];
    FromBigEndianOne();
    assert ReadInt(data, 0) == Success((1, 4));
    assert ReadEntry(data, 4) == Success((c, 6));
    assert ReadEntries(data, 6, 0) == Success(([], 6));
    assert [c] + [] == [c];
    assert ReadEntries(data, 4, 1) == Success(([c], 6));
    WriteIntOne();
    assert EncodeEntries([c]) == EncodeEntry(c) + EncodeEntries([]);
  }
}
