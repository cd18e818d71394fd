/**
 * The part of Python's struct module that the packet codec uses: `pack` and
 * `unpack` for a format in network byte order ("!") built from the codes
 * `B` (unsigned byte), `b` (signed byte) and `I` (unsigned 32-bit word).
 * Both fail, as `struct.error` does, when a value does not fit its code or
 * when the buffer is not exactly `calcsize(format)` bytes long.
 */
module Struct {
  import opened Wrappers

  type Byte = b: int | 0 <= b < 256

  /** One conversion code of a format string. */
  datatype Code = UByte | SByte | UInt

  const WORD_LIMIT: int := 0x1_0000_0000

  /** Number of bytes the code occupies in network byte order. */
  function Size(c: Code): nat
  {
    match c
    case UInt => 4
    case _ => 1
  }

  /** The values `pack` accepts for the code. */
  predicate InRange(c: Code, v: int)
  {
    match c
    case UByte => 0 <= v < 256
    case SByte => -128 <= v < 128
    case UInt => 0 <= v < WORD_LIMIT
  }

  /** The bytes of one value: two's complement for `b`, most significant byte first for `I`. */
  function EncodeValue(c: Code, v: int): (bs: seq<Byte>)
    requires InRange(c, v)
    ensures |bs| == Size(c)
  {
    match c
    case UByte => [v]
    case SByte => [if v < 0 then v + 256 else v]
    case UInt => [v / 0x100_0000, v / 0x1_0000 % 256, v / 0x100 % 256, v % 256]
  }

  /** The value of the bytes of one code. */
  function DecodeValue(c: Code, bs: seq<Byte>): (v: int)
    requires |bs| == Size(c)
    ensures InRange(c, v)
  {
    match c
    case UByte => bs[0]
    case SByte => if bs[0] < 128 then bs[0] as int else bs[0] as int - 256
    case UInt =>
      bs[0] as int * 0x100_0000 + bs[1] as int * 0x1_0000 + bs[2] as int * 0x100 + bs[3] as int
  }

  lemma DecodeAfterEncode(c: Code, v: int)
    requires InRange(c, v)
    ensures DecodeValue(c, EncodeValue(c, v)) == v
  {
    if c == UInt {
      var b0, r0 := v / 0x100_0000, v % 0x100_0000;
      var b1, r1 := r0 / 0x1_0000, r0 % 0x1_0000;
      var b2, b3 := r1 / 0x100, r1 % 0x100;
      assert v == b0 * 0x100_0000 + b1 * 0x1_0000 + b2 * 0x100 + b3;
      WordDigits(b0, b1, b2, b3);
    }
  }

  lemma EncodeAfterDecode(c: Code, bs: seq<Byte>)
    requires |bs| == Size(c)
    ensures EncodeValue(c, DecodeValue(c, bs)) == bs
  {
    if c == UInt {
      WordDigits(bs[0], bs[1], bs[2], bs[3]);
    }
  }

  /** The four digits, base 256, of a word are the bytes it was built from. */
  lemma WordDigits(b0: int, b1: int, b2: int, b3: int)
    requires 0 <= b0 < 256 && 0 <= b1 < 256 && 0 <= b2 < 256 && 0 <= b3 < 256
    ensures var v := b0 * 0x100_0000 + b1 * 0x1_0000 + b2 * 0x100 + b3;
      v / 0x100_0000 == b0 && v / 0x1_0000 % 256 == b1 && v / 0x100 % 256 == b2 && v % 256 == b3
  {
    DivPart(b0, 0x100_0000, b1 * 0x1_0000 + b2 * 0x100 + b3);
    DivPart(b0 * 0x100 + b1, 0x1_0000, b2 * 0x100 + b3);
    DivPart(b1, 256, 0);
    DivPart(b0 * 0x1_0000 + b1 * 0x100 + b2, 0x100, b3);
    DivPart(b2, 256, 0);
    DivPart(b0 * 0x1_0000 + b1 * 0x100 + b2, 256, b3);
    DivPart(b0, 256, b1);
    DivPart(b0 * 0x100 + b1, 256, b2);
  }

  /** Division by `k` recovers the quotient and remainder a number was built from. */
  lemma DivPart(q: int, k: int, r: int)
    requires 0 < k && 0 <= r < k
    ensures (q * k + r) / k == q && (q * k + r) % k == r
  {
    var d, m := (q * k + r) / k, (q * k + r) % k;
    assert (d - q) * k == r - m;
    MulSign(d - q, k);
  }

  lemma MulSign(a: int, k: int)
    requires 0 < k
    ensures a >= 1 ==> a * k >= k
    ensures a <= -1 ==> a * k <= -k
  {
  }

  /** `struct.calcsize`. */
  function CalcSize(fmt: seq<Code>): nat
  {
    if fmt == [] then 0 else Size(fmt[0]) + CalcSize(fmt[1..])
  }

  /** Every value fits its code, the first value first. */
  predicate AllInRange(fmt: seq<Code>, vals: seq<int>)
    requires |vals| == |fmt|
  {
    fmt == [] || (InRange(fmt[0], vals[0]) && AllInRange(fmt[1..], vals[1..]))
  }

  lemma {:induction false} AllInRangeIff(fmt: seq<Code>, vals: seq<int>)
    requires |vals| == |fmt|
    ensures AllInRange(fmt, vals) <==> forall i :: 0 <= i < |fmt| ==> InRange(fmt[i], vals[i])
  {
    if fmt != [] {
      AllInRangeIff(fmt[1..], vals[1..]);
      if forall i :: 0 <= i < |fmt| ==> InRange(fmt[i], vals[i]) {
        assert forall i :: 0 <= i < |fmt| - 1 ==> InRange(fmt[1..][i], vals[1..][i]) by {
          forall i | 0 <= i < |fmt| - 1
            ensures InRange(fmt[1..][i], vals[1..][i])
          {
            assert fmt[1..][i] == fmt[i + 1] && vals[1..][i] == vals[i + 1];
          }
        }
      }
      if AllInRange(fmt, vals) {
        forall i | 0 <= i < |fmt|
          ensures InRange(fmt[i], vals[i])
        {
          if i > 0 {
            assert fmt[1..][i - 1] == fmt[i] && vals[1..][i - 1] == vals[i];
          }
        }
      }
    }
  }

  /** `struct.pack(fmt, *vals)`; None stands for `struct.error`. */
  function Pack(fmt: seq<Code>, vals: seq<int>): (r: Option<seq<Byte>>)
    requires |vals| == |fmt|
    ensures r.Some? <==> AllInRange(fmt, vals)
    ensures r.Some? ==> |r.value| == CalcSize(fmt)
  {
    if fmt == [] then Some([])
    else if !InRange(fmt[0], vals[0]) then None
    else match Pack(fmt[1..], vals[1..])
      case None => None
      case Some(rest) => Some(EncodeValue(fmt[0], vals[0]) + rest)
  }

  /** `struct.unpack(fmt, data)`; None stands for `struct.error`. */
  function Unpack(fmt: seq<Code>, data: seq<Byte>): (r: Option<seq<int>>)
    ensures r.Some? <==> |data| == CalcSize(fmt)
    ensures r.Some? ==> |r.value| == |fmt|
    ensures r.Some? ==> AllInRange(fmt, r.value)
  {
    if fmt == [] then (if data == [] then Some([]) else None)
    else if |data| < Size(fmt[0]) then None
    else match Unpack(fmt[1..], data[Size(fmt[0])..])
      case None => None
      case Some(rest) => Some([DecodeValue(fmt[0], data[..Size(fmt[0])])] + rest)
  }

  /** Where the i-th value starts in a packed buffer. */
  function Offset(fmt: seq<Code>, i: nat): nat
    requires i <= |fmt|
  {
    CalcSize(fmt[..i])
  }

  lemma {:induction false} OffsetStep(fmt: seq<Code>, i: nat)
    requires i < |fmt|
    ensures Offset(fmt, i + 1) == Offset(fmt, i) + Size(fmt[i])
    ensures Offset(fmt, i) + Size(fmt[i]) <= CalcSize(fmt)
  {
    if i == 0 {
      assert fmt[..1][1..] == [];
      assert fmt[..0] == [];
      assert CalcSize(fmt) == Size(fmt[0]) + CalcSize(fmt[1..]);
    } else {
      OffsetStep(fmt[1..], i - 1);
      assert fmt[..i + 1][1..] == fmt[1..][..i];
      assert fmt[..i][1..] == fmt[1..][..i - 1];
    }
  }

  /** The i-th value of a successful pack sits at its offset in the buffer. */
  lemma {:induction false} PackAt(fmt: seq<Code>, vals: seq<int>, i: nat)
    requires |vals| == |fmt| && i < |fmt|
    requires Pack(fmt, vals).Some?
    ensures InRange(fmt[i], vals[i])
    ensures Offset(fmt, i) + Size(fmt[i]) <= CalcSize(fmt)
    ensures Pack(fmt, vals).value[Offset(fmt, i)..Offset(fmt, i) + Size(fmt[i])]
            == EncodeValue(fmt[i], vals[i])
  {
    OffsetStep(fmt, i);
    AllInRangeIff(fmt, vals);
    var bs := Pack(fmt, vals).value;
    var head := EncodeValue(fmt[0], vals[0]);
    assert bs == head + Pack(fmt[1..], vals[1..]).value;
    if i == 0 {
      assert fmt[..0] == [];
    } else {
      var rest := Pack(fmt[1..], vals[1..]).value;
      PackAt(fmt[1..], vals[1..], i - 1);
      assert fmt[..i][1..] == fmt[1..][..i - 1];
      var off := Offset(fmt[1..], i - 1);
      assert Offset(fmt, i) == |head| + off;
      assert fmt[1..][i - 1] == fmt[i] && vals[1..][i - 1] == vals[i];
      SliceOfSuffix(bs, |head|, off, off + Size(fmt[i]));
      assert bs[|head|..] == rest;
    }
  }

  /** The i-th value of a successful unpack is read from its offset in the buffer. */
  lemma {:induction false} UnpackAt(fmt: seq<Code>, data: seq<Byte>, i: nat)
    requires i < |fmt|
    requires Unpack(fmt, data).Some?
    ensures Offset(fmt, i) + Size(fmt[i]) <= |data|
    ensures Unpack(fmt, data).value[i]
            == DecodeValue(fmt[i], data[Offset(fmt, i)..Offset(fmt, i) + Size(fmt[i])])
  {
    OffsetStep(fmt, i);
    var k := Size(fmt[0]);
    if i == 0 {
      assert fmt[..0] == [];
    } else {
      var rest := data[k..];
      UnpackAt(fmt[1..], rest, i - 1);
      assert fmt[..i][1..] == fmt[1..][..i - 1];
      var off := Offset(fmt[1..], i - 1);
      assert fmt[1..][i - 1] == fmt[i];
      var size := Size(fmt[i]);
      assert Offset(fmt, i) == k + off;
      assert Unpack(fmt, data).value[i] == Unpack(fmt[1..], rest).value[i - 1];
      SliceOfSuffix(data, k, off, off + size);
    }
  }

  /** A slice of a suffix is a slice of the whole, shifted by where the suffix starts. */
  lemma SliceOfSuffix(data: seq<Byte>, k: nat, lo: nat, hi: nat)
    requires k <= |data| && lo <= hi <= |data| - k
    ensures data[k..][lo..hi] == data[k + lo..k + hi]
  {
    assert forall j :: 0 <= j < hi - lo ==> data[k..][lo..hi][j] == data[k + lo + j];
  }

  /** Unpacking what was packed gives back the values. */
  lemma {:induction false} UnpackAfterPack(fmt: seq<Code>, vals: seq<int>)
    requires |vals| == |fmt| && Pack(fmt, vals).Some?
    ensures Unpack(fmt, Pack(fmt, vals).value) == Some(vals)
  {
    if fmt != [] {
      var head := EncodeValue(fmt[0], vals[0]);
      var rest := Pack(fmt[1..], vals[1..]).value;
      var bs := head + rest;
      assert Pack(fmt, vals).value == bs;
      assert bs[..Size(fmt[0])] == head && bs[Size(fmt[0])..] == rest;
      UnpackAfterPack(fmt[1..], vals[1..]);
      DecodeAfterEncode(fmt[0], vals[0]);
      assert [vals[0]] + vals[1..] == vals;
    }
  }

  /** Packing what was unpacked gives back the buffer. */
  lemma {:induction false} PackAfterUnpack(fmt: seq<Code>, data: seq<Byte>)
    requires Unpack(fmt, data).Some?
    ensures Pack(fmt, Unpack(fmt, data).value) == Some(data)
  {
    if fmt != [] {
      var k := Size(fmt[0]);
      var vals := Unpack(fmt, data).value;
      PackAfterUnpack(fmt[1..], data[k..]);
      EncodeAfterDecode(fmt[0], data[..k]);
      assert vals[1..] == Unpack(fmt[1..], data[k..]).value;
      assert data[..k] + data[k..] == data;
    }
  }
}
