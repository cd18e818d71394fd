/**
 * `NTPPacket`: the 48-byte NTP header of section 7.3 of RFC 5905 as a mutable
 * object. `ToData` packs the fields with the struct format "!B B B b 11I";
 * `FromData` unpacks a received buffer into the fields in place. The origin
 * timestamp is written from two raw 32-bit words kept beside the decoded
 * value, so that a client's transmit timestamp can be echoed bit for bit.
 */
module Packet {
  import opened Wrappers
  import opened PyInt
  import opened FixedPoint
  import opened Struct

  /** `NTPException`, raised with one of two messages. */
  datatype NTPException =
    | InvalidPacketFields  // "Invalid NTP packet fields.": `to_data` could not pack
    | InvalidPacket        // "Invalid NTP packet.": `from_data` could not unpack

  /** `NTPPacket._PACKET_FORMAT`, "!B B B b 11I". */
  const PACKET_FORMAT: seq<Code> := [UByte, UByte, UByte, SByte] + seq(11, _ => UInt)

  const PACKET_SIZE: nat := 48

  /** Fraction bits of a 32.32 timestamp, the default `n` of `_to_frac` and `_to_time`. */
  const FRAC_BITS: nat := 32
  /** Fraction bits of the 16.16 root delay and root dispersion. */
  const SHORT_FRAC_BITS: nat := 16

  /** The powers of two the packet codec scales by. */
  lemma ScaleValues()
    ensures Pow2(3) == 8 && Pow2(6) == 64 && Pow2(8) == 256
    ensures Pow2(SHORT_FRAC_BITS) == 0x1_0000 && Pow2(FRAC_BITS) == 0x1_0000_0000
  {
    assert Pow2(4) == 16;
    Pow2Add(8, 8);
    Pow2Add(16, 16);
  }

  /** Byte offset of the i-th packed value: four single bytes, then 32-bit words. */
  function FieldOffset(i: nat): nat
  {
    if i < 4 then i else 4 * i - 12
  }

  lemma {:induction false} FormatLayout(i: nat)
    requires i <= |PACKET_FORMAT|
    ensures Offset(PACKET_FORMAT, i) == FieldOffset(i)
  {
    if i > 0 {
      FormatLayout(i - 1);
      OffsetStep(PACKET_FORMAT, i - 1);
    }
  }

  /** `struct.calcsize(_PACKET_FORMAT)` is the 48 bytes of the NTP header. */
  lemma FormatSize()
    ensures CalcSize(PACKET_FORMAT) == PACKET_SIZE
  {
    FormatLayout(|PACKET_FORMAT|);
    assert PACKET_FORMAT[..|PACKET_FORMAT|] == PACKET_FORMAT;
  }

  /** The big-endian 32-bit word at byte offset `off`. */
  function WordAt(data: seq<Byte>, off: nat): (w: int)
    requires off + 4 <= |data|
    ensures 0 <= w < WORD_LIMIT
  {
    DecodeValue(UInt, data[off..off + 4])
  }

  /** The first packed value, `leap << 6 | version << 3 | mode`. */
  function ByteZero(leap: int, version: int, mode: int): int
  {
    Or(Or(Shl(leap, 6), Shl(version, 3)), mode)
  }

  /** The first value packs as an unsigned byte exactly when leap, version and mode
      are not negative and no set bit is shifted past bit 7. */
  lemma ByteZeroFits(leap: int, version: int, mode: int)
    ensures 0 <= ByteZero(leap, version, mode) < 256
            <==> 0 <= leap < 4 && 0 <= version < 32 && 0 <= mode < 256
  {
    ByteZeroSign(leap, version, mode);
    if 0 <= leap && 0 <= version && 0 <= mode {
      ByteZeroBelow(leap, version, mode);
    }
  }

  /** Byte 0 is negative exactly when one of the three fields is. */
  lemma ByteZeroSign(leap: int, version: int, mode: int)
    ensures ByteZero(leap, version, mode) < 0 <==> leap < 0 || version < 0 || mode < 0
  {
    ScaleValues();
    OrNegative(Or(Shl(leap, 6), Shl(version, 3)), mode);
    OrNegative(Shl(leap, 6), Shl(version, 3));
  }

  /** For fields that are not negative, byte 0 stays below 256 exactly when no bit
      is shifted past bit 7. */
  lemma ByteZeroBelow(leap: nat, version: nat, mode: nat)
    ensures ByteZero(leap, version, mode) < 256 <==> leap < 4 && version < 32 && mode < 256
  {
    ScaleValues();
    var hi := Or(Shl(leap, 6), Shl(version, 3));
    OrAtLeast(Shl(leap, 6), Shl(version, 3));
    OrAtLeast(hi, mode);
    if leap < 4 && version < 32 && mode < 256 {
      OrBelow(Shl(leap, 6), Shl(version, 3), 8);
      OrBelow(hi, mode, 8);
    }
  }

  /** With each field inside its bit width, byte 0 is their concatenation. */
  lemma ByteZeroOfFields(leap: int, version: int, mode: int)
    requires 0 <= leap < 4 && 0 <= version < 8 && 0 <= mode < 8
    ensures ByteZero(leap, version, mode) == leap * 64 + version * 8 + mode
  {
    ShiftedFields(leap, version, mode);
    var high := Shl(leap * 8 + version, 3);
    OrShiftAdd(leap, 6, Shl(version, 3));
    assert Or(Shl(leap, 6), Shl(version, 3)) == high;
    OrShiftAdd(leap * 8 + version, 3, mode);
    assert ByteZero(leap, version, mode) == Or(high, mode) == high + mode;
  }

  /** The shifts of byte 0 as plain arithmetic, kept apart from `|`. */
  lemma ShiftedFields(leap: int, version: int, mode: int)
    requires 0 <= version < 8 && 0 <= mode < 8
    ensures Shl(leap, 6) == leap * 64 && Shl(version, 3) == version * 8
    ensures Shl(version, 3) < Pow2(6) && mode < Pow2(3)
    ensures Shl(leap * 8 + version, 3) == Shl(leap, 6) + Shl(version, 3)
  {
    ScaleValues();
  }

  /** Splitting a byte into leap, version and mode and joining them gives the byte back. */
  lemma ByteZeroSplit(b: Byte)
    ensures ByteZero(Shr(b, 6) % 4, Shr(b, 3) % 8, b % 8) == b
  {
    ByteFields(b);
    ByteZeroOfFields(Shr(b, 6) % 4, Shr(b, 3) % 8, b % 8);
  }

  /** `b >> 6 & 0x3`, `b >> 3 & 0x7` and `b & 0x7` are the bit fields 7-6, 5-3 and 2-0 of a byte. */
  lemma ByteFields(b: Byte)
    ensures 0 <= Shr(b, 6) % 4 < 4 && 0 <= Shr(b, 3) % 8 < 8
    ensures b == Shr(b, 6) % 4 * 64 + Shr(b, 3) % 8 * 8 + b % 8
  {
    ScaleValues();
    assert Shr(b, 6) == b / 64 && Shr(b, 3) == b / 8;
    var leap, rest := b / 64, b % 64;
    var version, mode := rest / 8, rest % 8;
    DivPart(leap, 64, rest);
    DivPart(version, 8, mode);
    DivPart(leap * 8 + version, 8, mode);
    DivPart(leap, 8, version);
    DivPart(0, 4, leap);
    assert b == (leap * 8 + version) * 8 + mode;
  }

  /** Reading back a byte 0 built from fields inside 2, 3 and 3 bits gives the fields. */
  lemma ByteZeroDecode(leap: int, version: int, mode: int)
    requires 0 <= leap < 4 && 0 <= version < 8 && 0 <= mode < 8
    ensures Shr(ByteZero(leap, version, mode), 6) % 4 == leap
    ensures Shr(ByteZero(leap, version, mode), 3) % 8 == version
    ensures ByteZero(leap, version, mode) % 8 == mode
  {
    ByteZeroOfFields(leap, version, mode);
    FieldsOfByte(leap, version, mode);
  }

  /** The bit fields of `64 * leap + 8 * version + mode` are leap, version and mode. */
  lemma FieldsOfByte(leap: int, version: int, mode: int)
    requires 0 <= leap < 4 && 0 <= version < 8 && 0 <= mode < 8
    ensures var b := leap * 64 + version * 8 + mode;
      Shr(b, 6) % 4 == leap && Shr(b, 3) % 8 == version && b % 8 == mode
  {
    ScaleValues();
    var b := leap * 64 + version * 8 + mode;
    assert Shr(b, 6) == b / 64 && Shr(b, 3) == b / 8;
    DivPart(leap, 64, version * 8 + mode);
    DivPart(0, 4, leap);
    DivPart(leap * 8 + version, 8, mode);
    DivPart(leap, 8, version);
    assert b == (leap * 8 + version) * 8 + mode;
  }

  /** With leap 0, a version of up to 5 bits and mode inside 3 bits, byte 0 is
      `8 * version + mode`: nothing masks the version to its 3 bits. */
  lemma ByteZeroWideVersion(version: int, mode: int)
    requires 0 <= version < 32 && 0 <= mode < 8
    ensures ByteZero(0, version, mode) == version * 8 + mode
  {
    WideShifts(version, mode);
    OrShiftAdd(0, 8, Shl(version, 3));
    assert Or(Shl(0, 6), Shl(version, 3)) == Shl(version, 3);
    OrShiftAdd(version, 3, mode);
    assert ByteZero(0, version, mode) == Or(Shl(version, 3), mode);
  }

  lemma WideShifts(version: int, mode: int)
    requires 0 <= version < 32 && 0 <= mode < 8
    ensures Shl(0, 6) == 0 == Shl(0, 8)
    ensures Shl(version, 3) == version * 8 && Shl(version, 3) < Pow2(8) && mode < Pow2(3)
  {
    ScaleValues();
  }

  /** A 16.16 value read back from its word is its two parts rebuilt. */
  lemma ShortWordReread(x: real)
    requires -1.0 < x < 65536.0
    ensures DivPow2(ShortWord(x) as real, SHORT_FRAC_BITS) == ToTime(ToInt(x), ToFrac(x, SHORT_FRAC_BITS), SHORT_FRAC_BITS)
    ensures Truncates(x, DivPow2(ShortWord(x) as real, SHORT_FRAC_BITS), SHORT_FRAC_BITS)
  {
    ScaleValues();
    ShortWordValue(x);
    DivPow2Is(ShortWord(x) as real, SHORT_FRAC_BITS);
    DivPow2Is(ToFrac(x, SHORT_FRAC_BITS) as real, SHORT_FRAC_BITS);
    MagnitudeAfterSplit(x, SHORT_FRAC_BITS);
  }

  /** A root delay or dispersion in the 16.16 format, `_to_int(x) << 16 | _to_frac(x, 16)`. */
  function ShortWord(x: real): int
  {
    Or(Shl(ToInt(x), SHORT_FRAC_BITS), ToFrac(x, SHORT_FRAC_BITS))
  }

  lemma ShortWordValue(x: real)
    ensures ShortWord(x) == ToInt(x) * 0x1_0000 + ToFrac(x, SHORT_FRAC_BITS)
  {
    ScaleValues();
    OrShiftAdd(ToInt(x), SHORT_FRAC_BITS, ToFrac(x, SHORT_FRAC_BITS));
  }

  /** The 16.16 value packs as a 32-bit word exactly when -1 < x < 2^16. */
  lemma ShortWordFits(x: real)
    ensures 0 <= ShortWord(x) < WORD_LIMIT <==> -1.0 < x < 65536.0
  {
    ShortWordValue(x);
    IntPartFits(x, 0x1_0000);
    ScaleValues();
  }

  /** A word read as `w / 2^16` packs back into the same word. */
  lemma ShortWordAfterRead(w: int)
    requires 0 <= w < WORD_LIMIT
    ensures ShortWord(DivPow2(w as real, SHORT_FRAC_BITS)) == w
  {
    ScaleValues();
    var q, f := w / 0x1_0000, w % 0x1_0000;
    DivPow2Is(w as real, SHORT_FRAC_BITS);
    DivPow2Is(f as real, SHORT_FRAC_BITS);
    assert DivPow2(w as real, SHORT_FRAC_BITS) == ToTime(q, f, SHORT_FRAC_BITS);
    SplitAfterBuild(q, f, SHORT_FRAC_BITS);
    ShortWordValue(DivPow2(w as real, SHORT_FRAC_BITS));
  }

  /** A 32.32 timestamp packs exactly when -1 < t < 2^32 (its fraction always fits). */
  predicate TimestampFits(t: real)
  {
    -1.0 < t < WORD_LIMIT as real
  }

  /** The eight bytes `to_data` writes for a 32.32 timestamp. */
  function TimestampBytes(t: real): (bs: seq<Byte>)
    requires TimestampFits(t)
    ensures |bs| == 8
  {
    IntPartFits(t, WORD_LIMIT);
    ScaleValues();
    EncodeValue(UInt, ToInt(t)) + EncodeValue(UInt, ToFrac(t, FRAC_BITS))
  }

  /** A timestamp read from two words packs back into the same two words. */
  lemma TimestampAfterRead(high: int, low: int)
    requires 0 <= high < WORD_LIMIT && 0 <= low < WORD_LIMIT
    ensures ToInt(ToTime(high, low, FRAC_BITS)) == high && ToFrac(ToTime(high, low, FRAC_BITS), FRAC_BITS) == low
  {
    ScaleValues();
    SplitAfterBuild(high, low, FRAC_BITS);
  }

  class NTPPacket {
    var leap: int
    var version: int
    var mode: int
    var stratum: int
    var poll: int
    var precision: int
    var rootDelay: real
    var rootDispersion: real
    var refId: int
    var refTimestamp: real
    /** Decoded origin timestamp; `to_data` never reads it. */
    var origTimestamp: real
    var origTimestampHigh: int
    var origTimestampLow: int
    var recvTimestamp: real
    var txTimestamp: real
    var txTimestampHigh: int
    var txTimestampLow: int

    /** `NTPPacket(version=2, mode=3, tx_timestamp=0)`: every other field is zero. */
    constructor (version: int := 2, mode: int := 3, txTimestamp: real := 0.0)
      ensures this.leap == 0 && this.version == version && this.mode == mode
      ensures stratum == 0 && poll == 0 && precision == 0
      ensures rootDelay == 0.0 && rootDispersion == 0.0 && refId == 0
      ensures refTimestamp == 0.0
      ensures origTimestamp == 0.0 && origTimestampHigh == 0 && origTimestampLow == 0
      ensures recvTimestamp == 0.0
      ensures this.txTimestamp == txTimestamp && txTimestampHigh == 0 && txTimestampLow == 0
    {
      leap := 0;
      this.version := version;
      this.mode := mode;
      stratum := 0;
      poll := 0;
      precision := 0;
      rootDelay := 0.0;
      rootDispersion := 0.0;
      refId := 0;
      refTimestamp := 0.0;
      origTimestamp := 0.0;
      origTimestampHigh := 0;
      origTimestampLow := 0;
      recvTimestamp := 0.0;
      this.txTimestamp := txTimestamp;
      txTimestampHigh := 0;
      txTimestampLow := 0;
    }

    /** The fifteen values that `to_data` hands to `struct.pack`. */
    function PackedValues(): (vals: seq<int>)
      reads this
      ensures |vals| == |PACKET_FORMAT|
    {
      FormatCodes();
      WireValues(leap, version, mode, stratum, poll, precision, rootDelay, rootDispersion, refId,
                 refTimestamp, origTimestampHigh, origTimestampLow, recvTimestamp, txTimestamp)
    }

    /** Every field fits its wire width. */
    predicate Encodable()
      reads this
    {
      0 <= leap < 4 && 0 <= version < 32 && 0 <= mode < 256 &&
      0 <= stratum < 256 && 0 <= poll < 256 && -128 <= precision < 128 &&
      -1.0 < rootDelay < 65536.0 && -1.0 < rootDispersion < 65536.0 &&
      0 <= refId < WORD_LIMIT &&
      TimestampFits(refTimestamp) &&
      0 <= origTimestampHigh < WORD_LIMIT && 0 <= origTimestampLow < WORD_LIMIT &&
      TimestampFits(recvTimestamp) && TimestampFits(txTimestamp)
    }

    /** `to_data`: the 48 wire bytes, or `NTPException` when a field does not fit. */
    function ToData(): (r: Result<seq<Byte>, NTPException>)
      reads this
      ensures r.Ok? <==> Encodable()
      ensures r.Err? ==> r.error == InvalidPacketFields
      ensures r.Ok? ==> |r.value| == PACKET_SIZE
    {
      var vals := PackedValues();
      EncodableIff();
      PackOkIff(vals);
      match Pack(PACKET_FORMAT, vals)
      case None => Err(InvalidPacketFields)
      case Some(bs) =>
        FormatSize();
        Ok(bs)
    }

    lemma EncodableIff()
      ensures ValuesFit(PackedValues()) <==> Encodable()
    {
      ByteZeroFits(leap, version, mode);
      ShortWordFits(rootDelay);
      ShortWordFits(rootDispersion);
      IntPartFits(refTimestamp, WORD_LIMIT);
      IntPartFits(recvTimestamp, WORD_LIMIT);
      IntPartFits(txTimestamp, WORD_LIMIT);
      ScaleValues();
    }

    /** The fields hold what `from_data` reads from the first 48 bytes of `data`. */
    predicate DecodedFrom(data: seq<Byte>)
      requires |data| >= PACKET_SIZE
      reads this
    {
      && leap == data[0] / 64 % 4 && version == data[0] / 8 % 8 && mode == data[0] % 8
      && stratum == data[1] && poll == data[2]
      && precision == (if data[3] < 128 then data[3] as int else data[3] as int - 256)
      && rootDelay == DivPow2(WordAt(data, 4) as real, SHORT_FRAC_BITS)
      && rootDispersion == DivPow2(WordAt(data, 8) as real, SHORT_FRAC_BITS)
      && refId == WordAt(data, 12)
      && refTimestamp == ToTime(WordAt(data, 16), WordAt(data, 20), FRAC_BITS)
      && origTimestamp == ToTime(WordAt(data, 24), WordAt(data, 28), FRAC_BITS)
      && origTimestampHigh == WordAt(data, 24) && origTimestampLow == WordAt(data, 28)
      && recvTimestamp == ToTime(WordAt(data, 32), WordAt(data, 36), FRAC_BITS)
      && txTimestamp == ToTime(WordAt(data, 40), WordAt(data, 44), FRAC_BITS)
      && txTimestampHigh == WordAt(data, 40) && txTimestampLow == WordAt(data, 44)
    }

    /** The fields hold what `from_data` assigns from the unpacked values u. */
    predicate Loaded(u: seq<int>)
      requires |u| == 15
      reads this
    {
      && leap == Shr(u[0], 6) % 4 && version == Shr(u[0], 3) % 8 && mode == u[0] % 8
      && stratum == u[1] && poll == u[2] && precision == u[3]
      && rootDelay == DivPow2(u[4] as real, SHORT_FRAC_BITS)
      && rootDispersion == DivPow2(u[5] as real, SHORT_FRAC_BITS)
      && refId == u[6] && refTimestamp == ToTime(u[7], u[8], FRAC_BITS)
      && origTimestamp == ToTime(u[9], u[10], FRAC_BITS)
      && origTimestampHigh == u[9] && origTimestampLow == u[10]
      && recvTimestamp == ToTime(u[11], u[12], FRAC_BITS)
      && txTimestamp == ToTime(u[13], u[14], FRAC_BITS)
      && txTimestampHigh == u[13] && txTimestampLow == u[14]
    }

    /** `from_data`: unpacks the first 48 bytes of a payload into the fields; bytes
        after them are ignored, and a shorter payload changes nothing. */
    method FromData(data: seq<Byte>) returns (r: Result<(), NTPException>)
      modifies this
      ensures r.Err? <==> |data| < PACKET_SIZE
      ensures r.Err? ==> r.error == InvalidPacket && unchanged(this)
      ensures r.Ok? ==> Unpack(PACKET_FORMAT, data[..PACKET_SIZE]).Some?
      ensures r.Ok? ==> Loaded(Unpack(PACKET_FORMAT, data[..PACKET_SIZE]).value)
    {
      FormatSize();
      var size := CalcSize(PACKET_FORMAT);
      var unpacked := Unpack(PACKET_FORMAT, data[..if |data| < size then |data| else size]);
      if unpacked.None? {
        return Err(InvalidPacket);
      }
      var u := unpacked.value;
      assert data[..if |data| < size then |data| else size] == data[..PACKET_SIZE];
      LoadHeader(u);
      LoadTimestamps(u);
      r := Ok(());
    }

    /** What `from_data` loads is what the 48 bytes say: byte 0 splits into leap,
        version and mode, bytes 1 to 3 are stratum, poll and the signed precision,
        and the words are the 16.16 and 32.32 values and the raw timestamp words. */
    lemma FromDataFields(data: seq<Byte>)
      requires |data| >= PACKET_SIZE && Unpack(PACKET_FORMAT, data[..PACKET_SIZE]).Some?
      requires Loaded(Unpack(PACKET_FORMAT, data[..PACKET_SIZE]).value)
      ensures DecodedFrom(data)
    {
      DecodedFields(data, Unpack(PACKET_FORMAT, data[..PACKET_SIZE]).value);
    }

    /** Packing what `from_data` loaded gives back the 48 bytes it read: every
        loaded field fits its wire width and is written where it was read. */
    lemma ToDataAfterFromData(data: seq<Byte>)
      requires |data| >= PACKET_SIZE && Unpack(PACKET_FORMAT, data[..PACKET_SIZE]).Some?
      requires Loaded(Unpack(PACKET_FORMAT, data[..PACKET_SIZE]).value)
      ensures Encodable()
      ensures ToData() == Ok(data[..PACKET_SIZE])
    {
      var head := data[..PACKET_SIZE];
      var u := Unpack(PACKET_FORMAT, head).value;
      RepackHead(head, u);
      RepackDecoded(u);
      assert PackedValues() == u;
      EncodableIff();
    }

    /** Loading what `to_data` packed, as `from_data` does, gives back every integer
        field and the raw origin words when version and mode fit their 3 bits; each
        timestamp comes back as its magnitude truncated to 32 fraction bits, and the
        root delay and dispersion as theirs truncated to 16. */
    lemma FromDataAfterToData(q: NTPPacket)
      requires Encodable() && version < 8 && mode < 8
      requires Unpack(PACKET_FORMAT, ToData().value).Some?
      requires q.Loaded(Unpack(PACKET_FORMAT, ToData().value).value)
      ensures q.leap == leap && q.version == version && q.mode == mode
      ensures q.stratum == stratum && q.poll == poll && q.precision == precision && q.refId == refId
      ensures q.origTimestampHigh == origTimestampHigh && q.origTimestampLow == origTimestampLow
      ensures q.origTimestamp == ToTime(origTimestampHigh, origTimestampLow, FRAC_BITS)
      ensures q.txTimestampHigh == ToInt(txTimestamp) && q.txTimestampLow == ToFrac(txTimestamp, FRAC_BITS)
      ensures Truncates(rootDelay, q.rootDelay, SHORT_FRAC_BITS)
      ensures Truncates(rootDispersion, q.rootDispersion, SHORT_FRAC_BITS)
      ensures Truncates(refTimestamp, q.refTimestamp, FRAC_BITS)
      ensures Truncates(recvTimestamp, q.recvTimestamp, FRAC_BITS)
      ensures Truncates(txTimestamp, q.txTimestamp, FRAC_BITS)
    {
      RepackValues();
      ByteZeroDecode(leap, version, mode);
      ShortWordReread(rootDelay);
      ShortWordReread(rootDispersion);
      MagnitudeAfterSplit(refTimestamp, FRAC_BITS);
      MagnitudeAfterSplit(recvTimestamp, FRAC_BITS);
      MagnitudeAfterSplit(txTimestamp, FRAC_BITS);
    }

    /** A version from 8 to 31 packs, but its high bits spill into the leap
        indicator: with leap 0 it comes back as leap version / 8 and version
        version % 8. */
    lemma VersionOverflow(q: NTPPacket)
      requires Encodable() && leap == 0 && 8 <= version && mode < 8
      requires Unpack(PACKET_FORMAT, ToData().value).Some?
      requires q.Loaded(Unpack(PACKET_FORMAT, ToData().value).value)
      ensures q.leap == version / 8 && q.version == version % 8 && q.mode == mode
    {
      RepackValues();
      ByteZeroWideVersion(version, mode);
      FieldsOfByte(version / 8, version % 8, mode);
      assert version * 8 + mode == version / 8 * 64 + version % 8 * 8 + mode;
    }

    /** Unpacking the bytes of `to_data` gives back the values it packed. */
    lemma RepackValues()
      requires Encodable()
      ensures Unpack(PACKET_FORMAT, ToData().value) == Some(PackedValues())
    {
      var vals := PackedValues();
      EncodableIff();
      PackOkIff(vals);
      UnpackAfterPack(PACKET_FORMAT, vals);
    }

    /** The header assignments `from_data` makes once the payload has unpacked into u. */
    method LoadHeader(u: seq<int>)
      requires |u| == 15
      modifies this`leap, this`version, this`mode, this`stratum, this`poll, this`precision
      modifies this`rootDelay, this`rootDispersion, this`refId
      ensures leap == Shr(u[0], 6) % 4 && version == Shr(u[0], 3) % 8 && mode == u[0] % 8
      ensures stratum == u[1] && poll == u[2] && precision == u[3]
      ensures rootDelay == DivPow2(u[4] as real, SHORT_FRAC_BITS)
      ensures rootDispersion == DivPow2(u[5] as real, SHORT_FRAC_BITS)
      ensures refId == u[6]
    {
      leap := Shr(u[0], 6) % 4;     // `>> 6 & 0x3`: & with 2^k - 1 keeps the remainder mod 2^k
      version := Shr(u[0], 3) % 8;  // `>> 3 & 0x7`
      mode := u[0] % 8;             // `& 0x7`
      stratum := u[1];
      poll := u[2];
      precision := u[3];
      rootDelay := DivPow2(u[4] as real, SHORT_FRAC_BITS);
      rootDispersion := DivPow2(u[5] as real, SHORT_FRAC_BITS);
      refId := u[6];
    }

    /** The timestamp assignments `from_data` makes once the payload has unpacked into u. */
    method LoadTimestamps(u: seq<int>)
      requires |u| == 15
      modifies this`refTimestamp, this`origTimestamp, this`origTimestampHigh, this`origTimestampLow
      modifies this`recvTimestamp, this`txTimestamp, this`txTimestampHigh, this`txTimestampLow
      ensures refTimestamp == ToTime(u[7], u[8], FRAC_BITS)
      ensures origTimestamp == ToTime(u[9], u[10], FRAC_BITS)
      ensures origTimestampHigh == u[9] && origTimestampLow == u[10]
      ensures recvTimestamp == ToTime(u[11], u[12], FRAC_BITS)
      ensures txTimestamp == ToTime(u[13], u[14], FRAC_BITS)
      ensures txTimestampHigh == u[13] && txTimestampLow == u[14]
    {
      refTimestamp := ToTime(u[7], u[8], FRAC_BITS);
      origTimestamp := ToTime(u[9], u[10], FRAC_BITS);
      origTimestampHigh := u[9];
      origTimestampLow := u[10];
      recvTimestamp := ToTime(u[11], u[12], FRAC_BITS);
      txTimestamp := ToTime(u[13], u[14], FRAC_BITS);
      txTimestampHigh := u[13];
      txTimestampLow := u[14];
    }

    /** `GetTxTimeStamp`: the transmit timestamp's two words as stored by `from_data`. */
    method GetTxTimeStamp() returns (high: int, low: int)
      ensures high == txTimestampHigh && low == txTimestampLow
    {
      high, low := txTimestampHigh, txTimestampLow;
    }

    /** `SetOriginTimeStamp`: the two words `to_data` writes as the origin timestamp. */
    method SetOriginTimeStamp(high: int, low: int)
      modifies this`origTimestampHigh, this`origTimestampLow
      ensures origTimestampHigh == high && origTimestampLow == low
    {
      origTimestampHigh := high;
      origTimestampLow := low;
    }

    /** Where `to_data` puts the header fields, the first 16 bytes. */
    lemma ToDataHeader()
      requires Encodable()
      ensures ToData().Ok?
      ensures var bs := ToData().value;
        && bs[0] == ByteZero(leap, version, mode)
        && bs[1] == stratum && bs[2] == poll
        && bs[3] == (if precision < 0 then precision + 256 else precision)
        && WordAt(bs, 4) == ShortWord(rootDelay)
        && WordAt(bs, 8) == ShortWord(rootDispersion)
        && WordAt(bs, 12) == refId
    {
      var vals := PackedValues();
      EncodableIff();
      PackOkIff(vals);
      PackedLayout(vals);
      var bs := ToData().value;
      assert bs == Pack(PACKET_FORMAT, vals).value;
      assert vals[0] == ByteZero(leap, version, mode);
      assert vals[3] == precision;
      assert vals[4] == ShortWord(rootDelay) && vals[5] == ShortWord(rootDispersion);
      DecodeAfterEncode(UInt, vals[4]);
      DecodeAfterEncode(UInt, vals[5]);
      DecodeAfterEncode(UInt, vals[6]);
    }

    /** `to_data` writes the two origin words as they were set, not the decoded origin timestamp. */
    lemma ToDataOrigin()
      requires Encodable()
      ensures ToData().Ok?
      ensures ToData().value[24..32]
              == EncodeValue(UInt, origTimestampHigh) + EncodeValue(UInt, origTimestampLow)
    {
      var vals := PackedValues();
      EncodableIff();
      PackOkIff(vals);
      PackedLayout(vals);
      var bs := ToData().value;
      assert bs[24..32] == bs[24..28] + bs[28..32];
    }

    /** Where `to_data` puts the reference, receive and transmit timestamps. */
    lemma ToDataTimestamps()
      requires Encodable()
      ensures ToData().Ok?
      ensures var bs := ToData().value;
        && bs[16..24] == TimestampBytes(refTimestamp)
        && bs[32..40] == TimestampBytes(recvTimestamp)
        && bs[40..48] == TimestampBytes(txTimestamp)
    {
      var vals := PackedValues();
      EncodableIff();
      PackOkIff(vals);
      TimestampLayout(vals, 7, refTimestamp);
      TimestampLayout(vals, 11, recvTimestamp);
      TimestampLayout(vals, 13, txTimestamp);
    }
  }

  /** The fifteen values fit their codes in "!B B B b 11I". */
  predicate ValuesFit(vals: seq<int>)
    requires |vals| == |PACKET_FORMAT|
  {
    InRange(UByte, vals[0]) && InRange(UByte, vals[1]) && InRange(UByte, vals[2])
    && InRange(SByte, vals[3])
    && InRange(UInt, vals[4]) && InRange(UInt, vals[5]) && InRange(UInt, vals[6])
    && InRange(UInt, vals[7]) && InRange(UInt, vals[8]) && InRange(UInt, vals[9])
    && InRange(UInt, vals[10]) && InRange(UInt, vals[11]) && InRange(UInt, vals[12])
    && InRange(UInt, vals[13]) && InRange(UInt, vals[14])
  }

  lemma FormatCodes()
    ensures |PACKET_FORMAT| == 15
    ensures PACKET_FORMAT[0] == UByte && PACKET_FORMAT[1] == UByte && PACKET_FORMAT[2] == UByte
    ensures PACKET_FORMAT[3] == SByte
    ensures forall i :: 4 <= i < 15 ==> PACKET_FORMAT[i] == UInt
  {
  }

  /** `struct.pack(_PACKET_FORMAT, ...)` succeeds exactly when every value fits. */
  lemma PackOkIff(vals: seq<int>)
    requires |vals| == |PACKET_FORMAT|
    ensures Pack(PACKET_FORMAT, vals).Some? <==> ValuesFit(vals)
  {
    FormatCodes();
    AllInRangeIff(PACKET_FORMAT, vals);
    if ValuesFit(vals) {
      forall i | 0 <= i < 15
        ensures InRange(PACKET_FORMAT[i], vals[i])
      {
        if i < 4 {
        } else if i < 8 {
          assert i == 4 || i == 5 || i == 6 || i == 7;
        } else if i < 12 {
          assert i == 8 || i == 9 || i == 10 || i == 11;
        } else {
          assert i == 12 || i == 13 || i == 14;
        }
      }
    } else {
      assert !(InRange(PACKET_FORMAT[0], vals[0]) && InRange(PACKET_FORMAT[1], vals[1])
               && InRange(PACKET_FORMAT[2], vals[2]) && InRange(PACKET_FORMAT[3], vals[3])
               && InRange(PACKET_FORMAT[4], vals[4]) && InRange(PACKET_FORMAT[5], vals[5])
               && InRange(PACKET_FORMAT[6], vals[6]) && InRange(PACKET_FORMAT[7], vals[7])
               && InRange(PACKET_FORMAT[8], vals[8]) && InRange(PACKET_FORMAT[9], vals[9])
               && InRange(PACKET_FORMAT[10], vals[10]) && InRange(PACKET_FORMAT[11], vals[11])
               && InRange(PACKET_FORMAT[12], vals[12]) && InRange(PACKET_FORMAT[13], vals[13])
               && InRange(PACKET_FORMAT[14], vals[14]));
    }
  }

  /** The 32-bit value number i (4 <= i < 15) of a successful pack. */
  lemma WordLayout(vals: seq<int>, i: nat)
    requires |vals| == |PACKET_FORMAT| && Pack(PACKET_FORMAT, vals).Some?
    requires 4 <= i < 15
    ensures InRange(UInt, vals[i])
    ensures 4 * i - 8 <= |Pack(PACKET_FORMAT, vals).value|
    ensures Pack(PACKET_FORMAT, vals).value[4 * i - 12..4 * i - 8] == EncodeValue(UInt, vals[i])
  {
    FormatCodes();
    FormatLayout(i);
    PackAt(PACKET_FORMAT, vals, i);
  }

  /** A timestamp packed as values i and i + 1 lands in the 8 bytes from 4 * i - 12. */
  lemma TimestampLayout(vals: seq<int>, i: nat, t: real)
    requires |vals| == |PACKET_FORMAT| && Pack(PACKET_FORMAT, vals).Some?
    requires 4 <= i < 14 && TimestampFits(t)
    requires vals[i] == ToInt(t) && vals[i + 1] == ToFrac(t, FRAC_BITS)
    ensures 4 * i - 4 <= |Pack(PACKET_FORMAT, vals).value|
    ensures Pack(PACKET_FORMAT, vals).value[4 * i - 12..4 * i - 4] == TimestampBytes(t)
  {
    WordLayout(vals, i);
    WordLayout(vals, i + 1);
    var bs := Pack(PACKET_FORMAT, vals).value;
    assert bs[4 * i - 12..4 * i - 4] == bs[4 * i - 12..4 * i - 8] + bs[4 * i - 8..4 * i - 4];
  }

  /** Where each packed value lands in the 48 bytes. */
  lemma PackedLayout(vals: seq<int>)
    requires |vals| == |PACKET_FORMAT| && Pack(PACKET_FORMAT, vals).Some?
    ensures ValuesFit(vals)
    ensures var bs := Pack(PACKET_FORMAT, vals).value;
      && |bs| == PACKET_SIZE
      && bs[0] == vals[0] && bs[1] == vals[1] && bs[2] == vals[2]
      && bs[3] == (if vals[3] < 0 then vals[3] + 256 else vals[3])
      && bs[4..8] == EncodeValue(UInt, vals[4]) && bs[8..12] == EncodeValue(UInt, vals[5])
      && bs[12..16] == EncodeValue(UInt, vals[6]) && bs[16..20] == EncodeValue(UInt, vals[7])
      && bs[20..24] == EncodeValue(UInt, vals[8]) && bs[24..28] == EncodeValue(UInt, vals[9])
      && bs[28..32] == EncodeValue(UInt, vals[10]) && bs[32..36] == EncodeValue(UInt, vals[11])
      && bs[36..40] == EncodeValue(UInt, vals[12]) && bs[40..44] == EncodeValue(UInt, vals[13])
      && bs[44..48] == EncodeValue(UInt, vals[14])
  {
    FormatSize();
    FormatCodes();
    PackOkIff(vals);
    var bs := Pack(PACKET_FORMAT, vals).value;
    forall i | 0 <= i < 4
      ensures bs[i..i + 1] == EncodeValue(PACKET_FORMAT[i], vals[i])
    {
      FormatLayout(i);
      PackAt(PACKET_FORMAT, vals, i);
    }
    assert bs[0] == bs[0..1][0] && bs[1] == bs[1..2][0];
    assert bs[2] == bs[2..3][0] && bs[3] == bs[3..4][0];
    WordLayout(vals, 4);
    WordLayout(vals, 5);
    WordLayout(vals, 6);
    WordLayout(vals, 7);
    WordLayout(vals, 8);
    WordLayout(vals, 9);
    WordLayout(vals, 10);
    WordLayout(vals, 11);
    WordLayout(vals, 12);
    WordLayout(vals, 13);
    WordLayout(vals, 14);
  }

  /** The words of a payload's first 48 bytes are those of the payload. */
  lemma WordsOfPrefix(data: seq<Byte>)
    requires |data| >= PACKET_SIZE
    ensures forall off :: 0 <= off <= PACKET_SIZE - 4 ==> WordAt(data[..PACKET_SIZE], off) == WordAt(data, off)
  {
    forall off | 0 <= off <= PACKET_SIZE - 4
      ensures WordAt(data[..PACKET_SIZE], off) == WordAt(data, off)
    {
      assert data[..PACKET_SIZE][off..off + 4] == data[off..off + 4];
    }
  }

  /** What `struct.unpack(_PACKET_FORMAT, ...)` reads from each part of 48 bytes. */
  lemma UnpackedLayout(data: seq<Byte>)
    requires |data| == PACKET_SIZE
    ensures Unpack(PACKET_FORMAT, data).Some?
    ensures var u := Unpack(PACKET_FORMAT, data).value;
      && |u| == 15
      && u[0] == data[0] && u[1] == data[1] && u[2] == data[2]
      && u[3] == (if data[3] < 128 then data[3] as int else data[3] as int - 256)
      && u[4] == WordAt(data, 4) && u[5] == WordAt(data, 8) && u[6] == WordAt(data, 12)
      && u[7] == WordAt(data, 16) && u[8] == WordAt(data, 20) && u[9] == WordAt(data, 24)
      && u[10] == WordAt(data, 28) && u[11] == WordAt(data, 32) && u[12] == WordAt(data, 36)
      && u[13] == WordAt(data, 40) && u[14] == WordAt(data, 44)
  {
    FormatSize();
    FormatCodes();
    forall i | 0 <= i < 15
      ensures Unpack(PACKET_FORMAT, data).value[i]
              == DecodeValue(PACKET_FORMAT[i], data[FieldOffset(i)..FieldOffset(i) + Size(PACKET_FORMAT[i])])
    {
      FormatLayout(i);
      UnpackAt(PACKET_FORMAT, data, i);
    }
    assert data[0..1][0] == data[0] && data[1..2][0] == data[1];
    assert data[2..3][0] == data[2] && data[3..4][0] == data[3];
  }

  /** Where `from_data` reads each unpacked value in a payload of at least 48 bytes. */
  lemma DecodedFields(data: seq<Byte>, u: seq<int>)
    requires |data| >= PACKET_SIZE && Unpack(PACKET_FORMAT, data[..PACKET_SIZE]) == Some(u)
    ensures |u| == 15
    ensures Shr(u[0], 6) % 4 == data[0] / 64 % 4 && Shr(u[0], 3) % 8 == data[0] / 8 % 8
    ensures u[0] % 8 == data[0] % 8 && u[1] == data[1] && u[2] == data[2]
    ensures u[3] == (if data[3] < 128 then data[3] as int else data[3] as int - 256)
    ensures u[4] == WordAt(data, 4) && u[5] == WordAt(data, 8) && u[6] == WordAt(data, 12)
    ensures u[7] == WordAt(data, 16) && u[8] == WordAt(data, 20) && u[9] == WordAt(data, 24)
    ensures u[10] == WordAt(data, 28) && u[11] == WordAt(data, 32) && u[12] == WordAt(data, 36)
    ensures u[13] == WordAt(data, 40) && u[14] == WordAt(data, 44)
  {
    UnpackedLayout(data[..PACKET_SIZE]);
    WordsOfPrefix(data);
    ScaleValues();
  }

  /** The values unpacked from 48 bytes fit their codes and pack back into those bytes. */
  lemma RepackHead(head: seq<Byte>, u: seq<int>)
    requires Unpack(PACKET_FORMAT, head) == Some(u)
    ensures |u| == |PACKET_FORMAT| && ValuesFit(u)
    ensures Pack(PACKET_FORMAT, u) == Some(head)
  {
    PackAfterUnpack(PACKET_FORMAT, head);
    PackOkIff(u);
  }

  /** The values `to_data` packs for the given field values. */
  function WireValues(li: int, vn: int, md: int, stratum: int, poll: int, precision: int,
                      delay: real, dispersion: real, refId: int, refTime: real,
                      origHigh: int, origLow: int, recvTime: real, txTime: real): (vals: seq<int>)
    ensures |vals| == 15
  {
    [ByteZero(li, vn, md), stratum, poll, precision,
     ShortWord(delay), ShortWord(dispersion), refId,
     ToInt(refTime), ToFrac(refTime, FRAC_BITS),
     origHigh, origLow,
     ToInt(recvTime), ToFrac(recvTime, FRAC_BITS),
     ToInt(txTime), ToFrac(txTime, FRAC_BITS)]
  }

  /** The fields `from_data` decodes from unpacked values pack back into those values. */
  lemma RepackDecoded(u: seq<int>)
    requires |u| == 15 && |PACKET_FORMAT| == 15 && ValuesFit(u)
    ensures WireValues(Shr(u[0], 6) % 4, Shr(u[0], 3) % 8, u[0] % 8, u[1], u[2], u[3],
                       DivPow2(u[4] as real, SHORT_FRAC_BITS), DivPow2(u[5] as real, SHORT_FRAC_BITS), u[6],
                       ToTime(u[7], u[8], FRAC_BITS), u[9], u[10],
                       ToTime(u[11], u[12], FRAC_BITS), ToTime(u[13], u[14], FRAC_BITS)) == u
  {
    ScaleValues();
    ByteZeroSplit(u[0]);
    ShortWordAfterRead(u[4]);
    ShortWordAfterRead(u[5]);
    TimestampAfterRead(u[7], u[8]);
    TimestampAfterRead(u[11], u[12]);
    TimestampAfterRead(u[13], u[14]);
  }
}
