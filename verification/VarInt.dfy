/** Bytes and the fixed-width integers of the wire format. */
module Bytes {
  type byte = x: int | 0 <= x < 256
  type uint8 = x: int | 0 <= x < 0x100
  type uint16 = x: int | 0 <= x < 0x1_0000
  type uint32 = x: int | 0 <= x < 0x1_0000_0000
  type uint64 = x: int | 0 <= x < 0x1_0000_0000_0000_0000

  /** Little-endian 16-bit write, as `appendUint16`. */
  function Put16(value: uint16): (out: seq<byte>)
    ensures |out| == 2
  {
    [value % 256, value / 256]
  }

  /** Little-endian 16-bit read at an offset, as `binary.LittleEndian.Uint16`. */
  function Get16(buf: seq<byte>, offset: nat): uint16
    requires offset + 2 <= |buf|
  {
    var high: int := buf[offset + 1];
    buf[offset] + 256 * high
  }

  /** `s` stands in `buf` at `offset`. */
  predicate StandsAt(s: seq<byte>, buf: seq<byte>, offset: nat) {
    offset + |s| <= |buf| && forall k {:trigger s[k]} | 0 <= k < |s| :: buf[offset + k] == s[k]
  }

  lemma StandsAtTail(s: seq<byte>, buf: seq<byte>, offset: nat)
    requires |s| > 0 && StandsAt(s, buf, offset)
    ensures buf[offset] == s[0] && StandsAt(s[1..], buf, offset + 1)
  {
    forall k {:trigger s[1..][k]} | 0 <= k < |s| - 1 ensures buf[offset + 1 + k] == s[1..][k] {
      assert s[1..][k] == s[k + 1];
    }
  }

  lemma StandsAtSplit(s: seq<byte>, t: seq<byte>, buf: seq<byte>, offset: nat)
    requires StandsAt(s + t, buf, offset)
    ensures StandsAt(s, buf, offset) && StandsAt(t, buf, offset + |s|)
  {
    forall k {:trigger s[k]} | 0 <= k < |s| ensures buf[offset + k] == s[k] {
      assert s[k] == (s + t)[k];
    }
    forall k {:trigger t[k]} | 0 <= k < |t| ensures buf[offset + |s| + k] == t[k] {
      assert t[k] == (s + t)[|s| + k];
    }
  }

  lemma StandsAtSlice(s: seq<byte>, buf: seq<byte>, offset: nat)
    requires StandsAt(s, buf, offset)
    ensures buf[offset..offset + |s|] == s
  {
  }
}

/** ProudNet's signed varint: 7-bit little-endian groups in 32-bit arithmetic. */
module VarInt {
  import opened Bytes

  const TWO_32: int := 0x1_0000_0000
  const MAX_BYTES: nat := 5

  datatype Decoded = Value(value: int, bytesRead: nat) | Incomplete | TooLong

  /** What `i` groups gathered in 32 bits stay below. */
  function Limit(i: nat): nat
    requires i <= MAX_BYTES
  {
    if i == 0 then 1 else if i == 1 then 0x80 else if i == 2 then 0x4000
    else if i == 3 then 0x20_0000 else if i == 4 then 0x1000_0000 else TWO_32
  }

  /** `x` shifted left by `i` groups. */
  function Shift(x: nat, i: nat): nat
    requires i < MAX_BYTES
  {
    if i == 0 then x else if i == 1 then x * 0x80 else if i == 2 then x * 0x4000
    else if i == 3 then x * 0x20_0000 else x * 0x1000_0000
  }

  /** The value an `int32` holds for a 32-bit pattern. */
  function Signed(bits: nat): int
    requires bits < TWO_32
  {
    if bits < TWO_32 / 2 then bits else bits - TWO_32
  }

  /** A non-negative value survives the cut to 32 bits exactly below 2^31, and never grows. */
  lemma FitsInt32(value: nat)
    ensures Signed(value % TWO_32) == value <==> value < TWO_32 / 2
    ensures Signed(value % TWO_32) <= value
  {
  }

  predicate IsInt32(value: int) {
    -TWO_32 / 2 <= value < TWO_32 / 2
  }

  /** The groups still to be written for the bits that remain. */
  function Groups(bits: nat): seq<byte> {
    if bits / 128 != 0 then [bits % 128 + 128] + Groups(bits / 128)
    else if bits >= 64 then [bits + 128, 0]
    else [bits]
  }

  function Encode(value: int): seq<byte> {
    Groups(value % TWO_32)
  }

  /** The source's `b & 0x7f`. */
  function Low7(b: byte): (low: nat)
    ensures low < 128 && low == b % 128
  {
    if b < 128 then b else b - 128
  }

  /** The source's `acc |= int32(b&0x7f) << shift`: the groups occupy disjoint bits, so the
      `or` is an addition, and the fifth group loses its bits above the 32nd. */
  function Merge(acc: nat, b: byte, i: nat): (bits: nat)
    requires i < MAX_BYTES && acc < Limit(i)
    ensures bits < Limit(i + 1) <= TWO_32
  {
    acc + Shift(if i < 4 then Low7(b) else Low7(b) % 16, i)
  }

  /** The value of the last group's accumulator: its sign bit stands for the complement. */
  function Finish(bits: nat, b: byte): int
    requires bits < TWO_32
  {
    if Low7(b) >= 64 then -1 - Signed(bits) else Signed(bits)
  }

  /** Decoding from group `i` on, with `acc` gathered so far. */
  function DecodeFrom(buf: seq<byte>, offset: nat, i: nat, acc: nat): Decoded
    requires i <= MAX_BYTES && acc < Limit(i)
    decreases MAX_BYTES - i
  {
    if i == MAX_BYTES then TooLong
    else if offset + i >= |buf| then Incomplete
    else
      var b := buf[offset + i];
      if b >= 128 then DecodeFrom(buf, offset, i + 1, Merge(acc, b, i))
      else Value(Finish(Merge(acc, b, i), b), i + 1)
  }

  function Decode(buf: seq<byte>, offset: nat): Decoded {
    DecodeFrom(buf, offset, 0, 0)
  }

  method EncodeVarInt(value: int) returns (out: seq<byte>)
    ensures out == Encode(value)
  {
    var remaining := value % TWO_32;
    out := [];
    while remaining / 128 != 0
      invariant 0 <= remaining
      invariant out + Groups(remaining) == Encode(value)
    {
      out := out + [remaining % 128 + 128];
      remaining := remaining / 128;
    }
    if remaining >= 64 {
      out := out + [remaining % 128 + 128];
      remaining := 0;
    }
    out := out + [remaining % 128];
  }

  lemma MergeIs32Bit(acc: nat, b: byte, i: nat)
    requires i < MAX_BYTES && acc < Limit(i)
    ensures Merge(acc, b, i) == (acc + Shift(Low7(b), i)) % TWO_32
  {
    if i == 4 {
      assert Shift(Low7(b), i) == Low7(b) % 16 * 0x1000_0000 + Low7(b) / 16 * TWO_32;
    } else {
      assert acc + Shift(Low7(b), i) < TWO_32;
    }
  }

  method DecodeVarInt(buf: seq<byte>, offset: nat) returns (r: Decoded)
    ensures r == Decode(buf, offset)
  {
    var acc := 0;
    for i := 0 to MAX_BYTES
      invariant 0 <= acc < Limit(i)
      invariant DecodeFrom(buf, offset, i, acc) == Decode(buf, offset)
    {
      if offset + i >= |buf| {
        return Incomplete;
      }
      var b := buf[offset + i];
      MergeIs32Bit(acc, b, i);
      acc := (acc + Shift(Low7(b), i)) % TWO_32;
      if b < 128 {
        return Value(if b >= 64 then -1 - Signed(acc) else Signed(acc), i + 1);
      }
    }
    return TooLong;
  }

  lemma {:induction false} GroupsLength(bits: nat, i: nat)
    requires i < MAX_BYTES && Shift(bits, i) < TWO_32
    ensures 1 <= |Groups(bits)| <= MAX_BYTES - i
  {
    if bits / 128 != 0 {
      GroupsLength(bits / 128, i + 1);
    }
  }

  lemma EncodeLength(value: int)
    ensures 1 <= |Encode(value)| <= MAX_BYTES
  {
    GroupsLength(value % TWO_32, 0);
  }

  lemma GroupStep(i: nat, acc: nat, bits: nat)
    requires i < MAX_BYTES && acc < Limit(i) && acc + Shift(bits, i) < TWO_32
    ensures bits >= 64 ==> i < 4
    ensures bits < 16 || i < 4
    ensures i < 4 ==> acc + Shift(bits % 128, i) + Shift(bits / 128, i + 1) == acc + Shift(bits, i)
  {
    if i == 0 {} else if i == 1 {} else if i == 2 {} else if i == 3 {} else {}
  }

  lemma DecodeLastGroups(buf: seq<byte>, offset: nat, i: nat, acc: nat, bits: nat)
    requires i < MAX_BYTES && acc < Limit(i) && acc + Shift(bits, i) < TWO_32 && bits < 128
    requires StandsAt(Groups(bits), buf, offset + i)
    ensures DecodeFrom(buf, offset, i, acc) == Value(Signed(acc + Shift(bits, i)), i + |Groups(bits)|)
  {
    var g := Groups(bits);
    GroupStep(i, acc, bits);
    StandsAtTail(g, buf, offset + i);
    assert Merge(acc, g[0], i) == acc + Shift(bits, i);
    if bits >= 64 {
      StandsAtTail(g[1..], buf, offset + i + 1);
      assert Merge(Merge(acc, g[0], i), 0, i + 1) == acc + Shift(bits, i);
    }
  }

  /** The decoder, met by the groups of `bits` at group `i`, adds them to what it holds. */
  lemma {:induction false} DecodeGroups(buf: seq<byte>, offset: nat, i: nat, acc: nat, bits: nat)
    requires i < MAX_BYTES && acc < Limit(i) && acc + Shift(bits, i) < TWO_32
    requires StandsAt(Groups(bits), buf, offset + i)
    ensures DecodeFrom(buf, offset, i, acc) == Value(Signed(acc + Shift(bits, i)), i + |Groups(bits)|)
    decreases MAX_BYTES - i
  {
    if bits < 128 {
      DecodeLastGroups(buf, offset, i, acc, bits);
    } else {
      var g := Groups(bits);
      GroupStep(i, acc, bits);
      StandsAtTail(g, buf, offset + i);
      var next := Merge(acc, g[0], i);
      assert next == acc + Shift(bits % 128, i);
      assert g[1..] == Groups(bits / 128);
      DecodeGroups(buf, offset, i + 1, next, bits / 128);
    }
  }

  /** What comes back at any offset, whatever stands before and after: the value as the
      wrap-around of `uint32(value)` leaves it. */
  lemma RoundTripModulo(buf: seq<byte>, offset: nat, value: int)
    requires StandsAt(Encode(value), buf, offset)
    ensures Decode(buf, offset) == Value(Signed(value % TWO_32), |Encode(value)|)
  {
    DecodeGroups(buf, offset, 0, 0, value % TWO_32);
  }

  /** So the round trip holds exactly on the 32-bit values. */
  lemma RoundTrip(buf: seq<byte>, offset: nat, value: int)
    requires StandsAt(Encode(value), buf, offset)
    ensures Decode(buf, offset) == Value(value, |Encode(value)|) <==> IsInt32(value)
  {
    RoundTripModulo(buf, offset, value);
  }

  lemma {:induction false} GroupsContinue(bits: nat, k: nat)
    requires k < |Groups(bits)|
    ensures Groups(bits)[k] >= 128 <==> k < |Groups(bits)| - 1
  {
    if bits / 128 != 0 && k > 0 {
      GroupsContinue(bits / 128, k - 1);
    } else if bits / 128 != 0 {
      assert |Groups(bits / 128)| > 0;
    }
  }

  lemma {:induction false} ContinuedIsIncomplete(buf: seq<byte>, offset: nat, i: nat, acc: nat)
    requires i < MAX_BYTES && acc < Limit(i) && offset + i <= |buf| < offset + MAX_BYTES
    requires forall k | offset + i <= k < |buf| :: buf[k] >= 128
    ensures DecodeFrom(buf, offset, i, acc) == Incomplete
    decreases MAX_BYTES - i
  {
    if offset + i < |buf| {
      ContinuedIsIncomplete(buf, offset, i + 1, Merge(acc, buf[offset + i], i));
    }
  }

  /** A value cut short is asked for again, never misread. */
  lemma ProperPrefixIncomplete(buf: seq<byte>, offset: nat, value: int)
    requires offset <= |buf| && buf[offset..] < Encode(value)
    ensures Decode(buf, offset) == Incomplete
  {
    EncodeLength(value);
    forall k | offset <= k < |buf| ensures buf[k] >= 128 {
      assert buf[k] == buf[offset..][k - offset];
      GroupsContinue(value % TWO_32, k - offset);
    }
    ContinuedIsIncomplete(buf, offset, 0, 0);
  }

  /** What k <= 4 bytes can decode to: a non-negative value below the sign bit of the last
      group, or the complement of one at or above it. */
  lemma {:induction false} DecodedRange(buf: seq<byte>, offset: nat, i: nat, acc: nat)
    requires i < MAX_BYTES && acc < Limit(i)
    requires DecodeFrom(buf, offset, i, acc).Value? && DecodeFrom(buf, offset, i, acc).bytesRead < MAX_BYTES
    ensures var d := DecodeFrom(buf, offset, i, acc);
            && i < d.bytesRead
            && (|| 0 <= d.value < Shift(64, d.bytesRead - 1)
                || Shift(64, d.bytesRead - 1) <= -1 - d.value < Shift(128, d.bytesRead - 1))
    decreases MAX_BYTES - i
  {
    var b := buf[offset + i];
    if b >= 128 {
      DecodedRange(buf, offset, i + 1, Merge(acc, b, i));
    }
  }

  /** The negative values the decoder also reads from fewer bytes than the encoder writes:
      those whose complement has its top bit at the sign bit of a group. */
  predicate ShorterFormExists(value: int) {
    || 64 <= -1 - value < 128
    || 64 * 0x80 <= -1 - value < 128 * 0x80
    || 64 * 0x4000 <= -1 - value < 128 * 0x4000
    || 64 * 0x20_0000 <= -1 - value < 128 * 0x20_0000
  }

  lemma {:induction false} GroupsMinimal(bits: nat)
    requires bits < TWO_32
    ensures |Groups(bits)| == if bits < 64 then 1 else if bits < 64 * 0x80 then 2 else if bits < 64 * 0x4000 then 3
                              else if bits < 64 * 0x20_0000 then 4 else 5
  {
    if bits >= 128 {
      GroupsMinimal(bits / 128);
    }
  }

  /** The groups of `bits`, all `k` of them, whatever their top bits. */
  function Padded(bits: nat, k: nat): (out: seq<byte>)
    requires k > 0
    ensures |out| == k
  {
    if k == 1 then [bits % 128] else [bits % 128 + 128] + Padded(bits / 128, k - 1)
  }

  lemma PaddedStep(bits: nat, i: nat, k: nat)
    requires 1 < k && i + k < MAX_BYTES && Shift(64, k - 1) <= bits < Limit(k)
    ensures Shift(bits, i) == Shift(bits % 128, i) + Shift(bits / 128, i + 1)
    ensures Shift(64, k - 2) <= bits / 128 < Limit(k - 1)
  {
    if i == 0 {} else if i == 1 {} else {}
    if k == 2 {} else if k == 3 {} else {}
  }

  lemma {:induction false} DecodePadded(buf: seq<byte>, i: nat, acc: nat, bits: nat, k: nat)
    requires 0 < k && i + k < MAX_BYTES && acc < Limit(i)
    requires Shift(64, k - 1) <= bits < Limit(k)
    requires StandsAt(Padded(bits, k), buf, i)
    ensures DecodeFrom(buf, 0, i, acc) == Value(-1 - (acc + Shift(bits, i)), i + k)
    decreases k
  {
    var p := Padded(bits, k);
    StandsAtTail(p, buf, i);
    assert Merge(acc, p[0], i) == acc + Shift(bits % 128, i);
    if k > 1 {
      PaddedStep(bits, i, k);
      assert p[1..] == Padded(bits / 128, k - 1);
      DecodePadded(buf, i + 1, Merge(acc, p[0], i), bits / 128, k - 1);
    }
  }

  /** `s` stands for `value` in fewer bytes than the encoder spends on it. */
  predicate IsShorterForm(s: seq<byte>, value: int) {
    Decode(s, 0).Value? && Decode(s, 0).value == value && Decode(s, 0).bytesRead < |Encode(value)|
  }

  /** What the encoder spends: by size on the non-negative values, all five bytes below zero. */
  lemma EncodedLength(value: int)
    requires IsInt32(value)
    ensures |Encode(value)| == if value < 0 then 5 else if value < 64 then 1 else if value < 64 * 0x80 then 2
                               else if value < 64 * 0x4000 then 3 else if value < 64 * 0x20_0000 then 4 else 5
  {
    GroupsMinimal(value % TWO_32);
    if value < 0 {
      assert value % TWO_32 == value + TWO_32;
    }
  }

  lemma ShorterFormInWindow(s: seq<byte>, value: int)
    requires IsInt32(value) && IsShorterForm(s, value)
    ensures ShorterFormExists(value)
  {
    EncodedLength(value);
    DecodedRange(s, 0, 0, 0);
    var k := Decode(s, 0).bytesRead;
    assert k == 1 || k == 2 || k == 3 || k == 4;
  }

  lemma ShorterFormWitness(value: int) returns (s: seq<byte>)
    requires ShorterFormExists(value)
    ensures IsShorterForm(s, value)
  {
    EncodedLength(value);
    var bits := -1 - value;
    var k := if bits < 0x80 then 1 else if bits < 0x4000 then 2 else if bits < 0x20_0000 then 3 else 4;
    s := Padded(bits, k);
    DecodePadded(s, 0, 0, bits, k);
  }

  /** The encoder is minimal exactly outside four windows of negative values; in particular
      on every non-negative one, which is all the protocol writes. */
  lemma EncodeMinimal(value: int)
    requires IsInt32(value)
    ensures (exists s: seq<byte> :: IsShorterForm(s, value)) <==> ShorterFormExists(value)
    ensures value >= 0 ==> !ShorterFormExists(value)
  {
    if ShorterFormExists(value) {
      var s := ShorterFormWitness(value);
    } else if s: seq<byte> :| IsShorterForm(s, value) {
      ShorterFormInWindow(s, value);
    }
  }

  /** More bytes never change a decision already taken. */
  lemma {:induction false} DecodeStable(a: seq<byte>, b: seq<byte>, offset: nat, i: nat, acc: nat)
    requires i <= MAX_BYTES && acc < Limit(i)
    requires DecodeFrom(a, offset, i, acc) != Incomplete
    ensures DecodeFrom(a + b, offset, i, acc) == DecodeFrom(a, offset, i, acc)
    decreases MAX_BYTES - i
  {
    if i < MAX_BYTES && a[offset + i] >= 128 {
      DecodeStable(a, b, offset, i + 1, Merge(acc, a[offset + i], i));
    }
  }

  /** Decoding at an offset is decoding the rest. */
  lemma {:induction false} DecodeShift(buf: seq<byte>, base: nat, offset: nat, i: nat, acc: nat)
    requires i <= MAX_BYTES && acc < Limit(i) && base <= |buf|
    ensures DecodeFrom(buf, base + offset, i, acc) == DecodeFrom(buf[base..], offset, i, acc)
    decreases MAX_BYTES - i
  {
    if i < MAX_BYTES && base + offset + i < |buf| {
      DecodeShift(buf, base, offset, i + 1, Merge(acc, buf[base + offset + i], i));
    }
  }

  lemma {:induction false} DecodeConsumes(buf: seq<byte>, offset: nat, i: nat, acc: nat)
    requires i <= MAX_BYTES && acc < Limit(i)
    ensures var d := DecodeFrom(buf, offset, i, acc);
            && (d.Value? ==> i < d.bytesRead <= MAX_BYTES && offset + d.bytesRead <= |buf|)
            && (d.Incomplete? ==> |buf| < offset + MAX_BYTES)
    decreases MAX_BYTES - i
  {
    if i < MAX_BYTES && offset + i < |buf| && buf[offset + i] >= 128 {
      DecodeConsumes(buf, offset, i + 1, Merge(acc, buf[offset + i], i));
    }
  }

  lemma {:induction false} DecodeIsInt32(buf: seq<byte>, offset: nat, i: nat, acc: nat)
    requires i <= MAX_BYTES && acc < Limit(i) && DecodeFrom(buf, offset, i, acc).Value?
    ensures IsInt32(DecodeFrom(buf, offset, i, acc).value)
    decreases MAX_BYTES - i
  {
    if buf[offset + i] >= 128 {
      DecodeIsInt32(buf, offset, i + 1, Merge(acc, buf[offset + i], i));
    }
  }
}
