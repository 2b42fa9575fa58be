/** UTF-16 (sections 2.1 and 2.2 of RFC 2781) behind a varint count of code units. */
module ProudString {
  import opened Bytes
  import opened Wrappers
  import VarInt

  /** A Unicode scalar value: what a Go rune of a valid string holds. */
  type Scalar = r: int | 0 <= r < 0xD800 || 0xE000 <= r <= 0x10_FFFF

  const REPLACEMENT: Scalar := 0xFFFD

  datatype StringError = CountIncomplete | CountTooLong | InvalidLength

  predicate IsHighSurrogate(u: uint16) { 0xD800 <= u < 0xDC00 }

  predicate IsLowSurrogate(u: uint16) { 0xDC00 <= u < 0xE000 }

  function UnitsOf(r: Scalar): seq<uint16> {
    if r < 0x1_0000 then [r]
    else [0xD800 + (r - 0x1_0000) / 0x400, 0xDC00 + (r - 0x1_0000) % 0x400]
  }

  /** The scalar a surrogate pair stands for. */
  function Pair(high: int, low: int): Scalar
    requires 0xD800 <= high < 0xDC00 && 0xDC00 <= low < 0xE000
  {
    (high - 0xD800) * 0x400 + (low - 0xDC00) + 0x1_0000
  }

  /** `utf16.Encode`. */
  function ToUnits(value: seq<Scalar>): seq<uint16> {
    if value == [] then [] else UnitsOf(value[0]) + ToUnits(value[1..])
  }

  /** `utf16.Decode`: a surrogate without its partner becomes U+FFFD. */
  function FromUnits(units: seq<uint16>): seq<Scalar> {
    if units == [] then []
    else
      var u := units[0];
      if !IsHighSurrogate(u) && !IsLowSurrogate(u) then
        [u as Scalar] + FromUnits(units[1..])
      else if IsHighSurrogate(u) && |units| > 1 && IsLowSurrogate(units[1]) then
        [Pair(u, units[1])] + FromUnits(units[2..])
      else
        [REPLACEMENT] + FromUnits(units[1..])
  }

  /** UTF-16LE: two bytes a code unit, the low one first. */
  function UnitBytes(units: seq<uint16>): (out: seq<byte>)
    ensures |out| == 2 * |units|
  {
    seq(2 * |units|, i requires 0 <= i < 2 * |units| => Put16(units[i / 2])[i % 2])
  }

  function UnitsAt(buf: seq<byte>, start: nat, count: nat): seq<uint16>
    requires start + 2 * count <= |buf|
  {
    seq(count, i requires 0 <= i < count => Get16(buf, start + 2 * i))
  }

  function Counted(units: seq<uint16>): seq<byte> {
    VarInt.Encode(|units|) + UnitBytes(units)
  }

  function Written(value: seq<Scalar>): seq<byte> {
    Counted(ToUnits(value))
  }

  /** Reading `count` code units from `start` on. */
  function ReadUnits(buf: seq<byte>, start: nat, count: int): Result<(seq<Scalar>, nat), StringError> {
    if count < 0 || start + count * 2 > |buf| then Failure(InvalidLength)
    else Success((FromUnits(UnitsAt(buf, start, count)), start + count * 2))
  }

  function Read(buf: seq<byte>, offset: nat): Result<(seq<Scalar>, nat), StringError> {
    match VarInt.Decode(buf, offset)
    case Incomplete => Failure(CountIncomplete)
    case TooLong => Failure(CountTooLong)
    case Value(count, n) => ReadUnits(buf, offset + n, count)
  }

  lemma UnitBytesAt(units: seq<uint16>, k: nat)
    requires k < |units|
    ensures UnitBytes(units)[2 * k] == units[k] % 256 && UnitBytes(units)[2 * k + 1] == units[k] / 256
    ensures UnitBytes(units)[..2 * (k + 1)] == UnitBytes(units)[..2 * k] + [units[k] % 256, units[k] / 256]
  {
    assert (2 * k) / 2 == k == (2 * k + 1) / 2;
  }

  method WriteProudString(dst: seq<byte>, value: seq<Scalar>) returns (out: seq<byte>)
    ensures out == dst + Written(value)
  {
    var units := ToUnits(value);
    var length := VarInt.EncodeVarInt(|units|);
    out := dst + length;
    for i := 0 to |units|
      invariant out == dst + length + UnitBytes(units)[..2 * i]
    {
      UnitBytesAt(units, i);
      out := out + [units[i] % 256, units[i] / 256];
    }
  }

  method ReadProudString(buf: seq<byte>, offset: nat) returns (r: Result<(seq<Scalar>, nat), StringError>)
    ensures r == Read(buf, offset)
  {
    var decoded := VarInt.DecodeVarInt(buf, offset);
    match decoded
    case Incomplete => return Failure(CountIncomplete);
    case TooLong => return Failure(CountTooLong);
    case Value(charLen, n) =>
      var start := offset + n;
      var end := start + charLen * 2;
      if charLen < 0 || end > |buf| {
        return Failure(InvalidLength);
      }
      var units := new uint16[charLen];
      for i := 0 to charLen
        invariant units[..i] == UnitsAt(buf, start, i)
      {
        units[i] := Get16(buf, start + i * 2);
      }
      assert units[..] == units[..charLen];
      return Success((FromUnits(units[..]), end));
  }

  lemma {:induction false} UnitsRoundTrip(value: seq<Scalar>)
    ensures FromUnits(ToUnits(value)) == value
  {
    if value != [] {
      var rest := ToUnits(value[1..]);
      var u := UnitsOf(value[0]);
      UnitsRoundTrip(value[1..]);
      assert (u + rest)[|u|..] == rest;
      assert FromUnits(u + rest) == [value[0]] + FromUnits(rest);
    }
  }

  lemma UnitsAtWritten(buf: seq<byte>, start: nat, units: seq<uint16>)
    requires StandsAt(UnitBytes(units), buf, start)
    ensures UnitsAt(buf, start, |units|) == units
  {
    var bytes := UnitBytes(units);
    forall k | 0 <= k < |units| ensures UnitsAt(buf, start, |units|)[k] == units[k] {
      UnitBytesAt(units, k);
      assert buf[start + 2 * k] == bytes[2 * k];
      assert buf[start + (2 * k + 1)] == bytes[2 * k + 1];
    }
  }

  /** What the reader sees of counted units: their number wrapped to 32 bits. */
  lemma ReadsCount(buf: seq<byte>, offset: nat, units: seq<uint16>)
    requires StandsAt(Counted(units), buf, offset)
    ensures Read(buf, offset)
            == ReadUnits(buf, offset + |VarInt.Encode(|units|)|, VarInt.Signed(|units| % VarInt.TWO_32))
  {
    StandsAtSplit(VarInt.Encode(|units|), UnitBytes(units), buf, offset);
    VarInt.RoundTripModulo(buf, offset, |units|);
  }

  lemma ReadGives(buf: seq<byte>, start: nat, units: seq<uint16>)
    requires start + 2 * |units| <= |buf| && UnitsAt(buf, start, |units|) == units
    ensures ReadUnits(buf, start, |units|) == Success((FromUnits(units), start + 2 * |units|))
  {
  }

  lemma ReadsUnits(buf: seq<byte>, start: nat, units: seq<uint16>)
    requires StandsAt(UnitBytes(units), buf, start)
    ensures ReadUnits(buf, start, |units|) == Success((FromUnits(units), start + 2 * |units|))
  {
    UnitsAtWritten(buf, start, units);
    ReadGives(buf, start, units);
  }

  lemma CountedReadsBack(buf: seq<byte>, offset: nat, units: seq<uint16>)
    requires StandsAt(Counted(units), buf, offset)
    ensures |units| < 0x8000_0000 ==> Read(buf, offset) == Success((FromUnits(units), offset + |Counted(units)|))
    ensures |units| >= 0x8000_0000 && Read(buf, offset).Success? ==>
              Read(buf, offset).value.1 < offset + |Counted(units)|
  {
    hide VarInt.Encode, VarInt.Decode;
    var start := offset + |VarInt.Encode(|units|)|;
    VarInt.FitsInt32(|units|);
    ReadsCount(buf, offset, units);
    StandsAtSplit(VarInt.Encode(|units|), UnitBytes(units), buf, offset);
    ReadsUnits(buf, start, units);
  }

  /** Round trip at any offset, surrogate pairs included. It holds exactly while the count of
      code units fits the 32-bit length prefix. */
  lemma RoundTrip(buf: seq<byte>, offset: nat, value: seq<Scalar>)
    requires StandsAt(Written(value), buf, offset)
    ensures Read(buf, offset) == Success((value, offset + |Written(value)|)) <==> |ToUnits(value)| < 0x8000_0000
  {
    CountedReadsBack(buf, offset, ToUnits(value));
    UnitsRoundTrip(value);
  }

  lemma {:induction false} FromUnitsLength(units: seq<uint16>)
    ensures |ToUnits(FromUnits(units))| <= |units|
  {
    if units != [] {
      var u := units[0];
      var pair := IsHighSurrogate(u) && |units| > 1 && IsLowSurrogate(units[1]);
      var rest := if pair then units[2..] else units[1..];
      FromUnitsLength(rest);
      assert FromUnits(units)[1..] == FromUnits(rest);
    }
  }

  /** Whatever the reader accepts, ill-formed UTF-16 included, is a fixed point of writing and
      reading again. */
  lemma ReadIsNormal(buf: seq<byte>, offset: nat, copy: seq<byte>, at: nat)
    requires Read(buf, offset).Success? && StandsAt(Written(Read(buf, offset).value.0), copy, at)
    ensures var value := Read(buf, offset).value.0;
            Read(copy, at) == Success((value, at + |Written(value)|))
  {
    var value := Read(buf, offset).value.0;
    assert |ToUnits(value)| < 0x8000_0000 by {
      var d := VarInt.Decode(buf, offset);
      VarInt.DecodeIsInt32(buf, offset, 0, 0);
      FromUnitsLength(UnitsAt(buf, offset + d.bytesRead, d.value));
    }
    hide Read;
    RoundTrip(copy, at, value);
  }
}
