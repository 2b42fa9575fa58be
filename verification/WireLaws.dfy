/** The wire format in plain bytes and numbers: what goes out, and what each kind of frame does. */
module WireLaws {
  import opened Bytes
  import opened Wrappers
  import opened Rmi
  import opened Frame
  import opened Session
  import VarInt
  import ProudString
  import Stream

  // ------------------------------------------------------------- numbers

  /** The number that 7-bit groups stand for, the lowest first. */
  function Number(groups: seq<byte>): nat {
    if groups == [] then 0 else groups[0] % 128 + 128 * Number(groups[1..])
  }

  /** A group sequence: every byte but the last has its top bit set. */
  predicate IsGroups(s: seq<byte>) {
    0 < |s| <= 5 && s[|s| - 1] < 128 && forall k | 0 <= k < |s| - 1 :: s[k] >= 128
  }

  /** What the decoder makes of a number and the last byte: 32 bits with their sign, complemented
      when bit 6 of the last byte is set. */
  function Meant(number: nat, last: byte): int {
    var bits := number % 0x1_0000_0000;
    var value := if bits < 0x8000_0000 then bits else bits - 0x1_0000_0000;
    if last % 128 >= 64 then -1 - value else value
  }

  /** One more group below the others, in positional notation and in the decoder's shifts. */
  lemma ShiftStep(acc: nat, b: byte, more: nat, i: nat)
    requires i < 4 && acc < VarInt.Limit(i)
    ensures VarInt.Merge(acc, b, i) + VarInt.Shift(more, i + 1) == acc + VarInt.Shift(b % 128 + 128 * more, i)
  {
    if i == 0 {} else if i == 1 {} else if i == 2 {} else {}
  }

  /** The last group of a number. */
  lemma LastGroup(buf: seq<byte>, offset: nat, i: nat, acc: nat, b: byte)
    requires i < 5 && b < 128 && acc < VarInt.Limit(i) && StandsAt([b], buf, offset + i)
    ensures VarInt.DecodeFrom(buf, offset, i, acc) == VarInt.Value(Meant(acc + VarInt.Shift(b, i), b), i + 1)
  {
    hide VarInt.Merge, VarInt.Shift, VarInt.Limit;
    StandsAtTail([b], buf, offset + i);
    VarInt.MergeIs32Bit(acc, b, i);
  }

  lemma {:induction false} DecodesFrom(buf: seq<byte>, offset: nat, i: nat, acc: nat, s: seq<byte>)
    requires IsGroups(s) && i + |s| <= 5 && acc < VarInt.Limit(i) && StandsAt(s, buf, offset + i)
    ensures VarInt.DecodeFrom(buf, offset, i, acc)
         == VarInt.Value(Meant(acc + VarInt.Shift(Number(s), i), s[|s| - 1]), i + |s|)
    decreases |s|
  {
    hide VarInt.Merge, VarInt.Shift, VarInt.Limit, Meant, StandsAt;
    var b := s[0];
    if |s| == 1 {
      assert s == [b] && s[1..] == [];
      LastGroup(buf, offset, i, acc, b);
    } else {
      StandsAtTail(s, buf, offset + i);
      ShiftStep(acc, b, Number(s[1..]), i);
      DecodesFrom(buf, offset, i + 1, VarInt.Merge(acc, b, i), s[1..]);
    }
  }

  /** Decoding is positional notation in base 128, cut to 32 bits. */
  lemma DecodesNumber(buf: seq<byte>, offset: nat, s: seq<byte>)
    requires IsGroups(s) && StandsAt(s, buf, offset)
    ensures VarInt.Decode(buf, offset) == VarInt.Value(Meant(Number(s), s[|s| - 1]), |s|)
  {
    DecodesFrom(buf, offset, 0, 0, s);
  }

  lemma {:induction false} GroupsNumber(bits: nat)
    ensures Number(VarInt.Groups(bits)) == bits
  {
    if bits / 128 != 0 {
      GroupsNumber(bits / 128);
      assert VarInt.Groups(bits)[1..] == VarInt.Groups(bits / 128);
    } else if bits >= 64 {
      assert VarInt.Groups(bits)[1..] == [0] && [0][1..] == [];
    } else {
      assert VarInt.Groups(bits)[1..] == [];
    }
  }

  /** So is encoding, with a last byte below 64: no value is mistaken for a complement. */
  lemma EncodesNumber(value: int)
    ensures IsGroups(VarInt.Encode(value)) && Number(VarInt.Encode(value)) == value % 0x1_0000_0000
    ensures var s := VarInt.Encode(value); s[|s| - 1] < 64
  {
    var bits := value % 0x1_0000_0000;
    VarInt.EncodeLength(value);
    GroupsNumber(bits);
    forall k | 0 <= k < |VarInt.Encode(value)|
      ensures VarInt.Encode(value)[k] >= 128 <==> k < |VarInt.Encode(value)| - 1
    {
      VarInt.GroupsContinue(bits, k);
    }
    LastBelow64(bits);
  }

  lemma {:induction false} LastBelow64(bits: nat)
    ensures var s := VarInt.Groups(bits); s != [] && s[|s| - 1] < 64
  {
    if bits / 128 != 0 {
      LastBelow64(bits / 128);
    }
  }

  /** No number: five bytes that all go on are too long, fewer up to the end are incomplete. */
  lemma DecodesNothing(buf: seq<byte>, offset: nat)
    ensures VarInt.Decode(buf, offset) == VarInt.TooLong <==>
      offset + 5 <= |buf| && forall k | offset <= k < offset + 5 :: buf[k] >= 128
    ensures VarInt.Decode(buf, offset) == VarInt.Incomplete <==>
      |buf| < offset + 5 && forall k | offset <= k < |buf| :: buf[k] >= 128
  {
    GoesOn(buf, offset, 0, 0);
  }

  lemma {:induction false} GoesOn(buf: seq<byte>, offset: nat, i: nat, acc: nat)
    requires i <= 5 && acc < VarInt.Limit(i)
    ensures VarInt.DecodeFrom(buf, offset, i, acc) == VarInt.TooLong <==>
      (i == 5 || offset + 5 <= |buf|) && forall k | offset + i <= k < offset + 5 :: buf[k] >= 128
    ensures VarInt.DecodeFrom(buf, offset, i, acc) == VarInt.Incomplete <==>
      i < 5 && |buf| < offset + 5 && forall k | offset + i <= k < |buf| :: buf[k] >= 128
    decreases 5 - i
  {
    hide VarInt.Merge, VarInt.Limit;
    if i < 5 && offset + i < |buf| && buf[offset + i] >= 128 {
      GoesOn(buf, offset, i + 1, VarInt.Merge(acc, buf[offset + i], i));
    }
  }

  // ------------------------------------------------------------- strings

  /** A string on the wire: the number of code units, then each unit, low byte first. */
  lemma StringBytes(value: seq<ProudString.Scalar>, k: nat)
    requires k < |ProudString.ToUnits(value)|
    ensures var units, n := ProudString.ToUnits(value), |VarInt.Encode(|ProudString.ToUnits(value)|)|;
      var out := ProudString.Written(value);
      && |out| == n + 2 * |units| && out[..n] == VarInt.Encode(|units|)
      && out[n + 2 * k] == units[k] % 256 && out[n + 2 * k + 1] == units[k] / 256
  {
    hide *;
    var units := ProudString.ToUnits(value);
    ProudString.UnitBytesAt(units, k);
    WrittenIs(value);
    Joined(VarInt.Encode(|units|), ProudString.UnitBytes(units), 2 * k);
  }

  lemma WrittenIs(value: seq<ProudString.Scalar>)
    ensures var units := ProudString.ToUnits(value);
      ProudString.Written(value) == VarInt.Encode(|units|) + ProudString.UnitBytes(units)
  {
  }

  lemma Joined(front: seq<byte>, back: seq<byte>, k: nat)
    requires k + 2 <= |back|
    ensures (front + back)[..|front|] == front
    ensures (front + back)[|front| + k] == back[k] && (front + back)[|front| + k + 1] == back[k + 1]
  {
  }

  /** The 16-bit numbers that stand from `start` on, low byte first. */
  function Words(buf: seq<byte>, start: nat, count: nat): seq<uint16>
    requires start + 2 * count <= |buf|
  {
    seq(count, k requires 0 <= k < count => buf[start + 2 * k] + 256 * (buf[start + 2 * k + 1] as int))
  }

  lemma WordsAre(buf: seq<byte>, start: nat, count: nat)
    requires start + 2 * count <= |buf|
    ensures ProudString.UnitsAt(buf, start, count) == Words(buf, start, count)
  {
  }

  /** A string read: refused when the count is negative or goes past the end, and otherwise that
      many units, low byte first, decoded. */
  lemma StringReads(buf: seq<byte>, offset: nat, s: seq<byte>)
    requires IsGroups(s) && StandsAt(s, buf, offset)
    ensures var count, start := Meant(Number(s), s[|s| - 1]), offset + |s|;
      ProudString.Read(buf, offset) ==
        if count < 0 || start + 2 * count > |buf| then Failure(ProudString.InvalidLength)
        else Success((ProudString.FromUnits(Words(buf, start, count)), start + 2 * count))
  {
    hide VarInt.Decode, ProudString.FromUnits, ProudString.UnitsAt, Words, Meant, Number;
    DecodesNumber(buf, offset, s);
    var count, start := Meant(Number(s), s[|s| - 1]), offset + |s|;
    if count >= 0 && start + 2 * count <= |buf| {
      WordsAre(buf, start, count);
    }
  }

  /** A scalar below 2^16 is its own code unit; a higher one is a surrogate pair of the ten high
      and the ten low bits of its distance from 2^16 (section 2.1 of RFC 2781). */
  lemma UnitsAre(r: ProudString.Scalar)
    ensures var u := ProudString.UnitsOf(r);
      if r < 0x1_0000 then u == [r]
      else
        && |u| == 2 && 0xD800 <= u[0] <= 0xDBFF && 0xDC00 <= u[1] <= 0xDFFF
        && (u[0] as int - 0xD800) * 1024 + (u[1] as int - 0xDC00) == r - 0x1_0000
  {
  }

  /** A string's units are those of its scalars, one after the other. */
  lemma {:induction false} UnitsJoin(value: seq<ProudString.Scalar>, more: seq<ProudString.Scalar>)
    ensures ProudString.ToUnits([]) == []
    ensures ProudString.ToUnits(value + more) == ProudString.ToUnits(value) + ProudString.ToUnits(more)
    ensures |value| == 1 ==> ProudString.ToUnits(value) == ProudString.UnitsOf(value[0])
  {
    if value == [] {
      assert value + more == more;
    } else {
      assert (value + more)[1..] == value[1..] + more;
      UnitsJoin(value[1..], more);
    }
  }

  /** What the front of a unit sequence decodes to; a surrogate out of place is U+FFFD. */
  lemma FrontUnit(u: uint16, rest: seq<uint16>)
    ensures var high, low := 0xD800 <= u <= 0xDBFF, rest != [] && 0xDC00 <= rest[0] <= 0xDFFF;
      ProudString.FromUnits([u] + rest) ==
        if u < 0xD800 || u > 0xDFFF then [u as ProudString.Scalar] + ProudString.FromUnits(rest)
        else if high && low
        then [((u - 0xD800) * 1024 + (rest[0] - 0xDC00) + 0x1_0000) as ProudString.Scalar]
             + ProudString.FromUnits(rest[1..])
        else [0xFFFD as ProudString.Scalar] + ProudString.FromUnits(rest)
  {
    assert ([u] + rest)[1..] == rest;
    if rest != [] {
      assert ([u] + rest)[2..] == rest[1..];
    }
  }

  // -------------------------------------------------------- bytes sent

  /** What `SendReliable` writes: the marker 0x5713, low byte first, and the payload's length. */
  lemma ReliableBytes(payload: seq<byte>)
    ensures Encode(Frame(MARKER_RELIABLE, payload)) == [0x13, 0x57] + VarInt.Encode(|payload|) + payload
  {
  }

  lemma PlainBytes(msg: Message)
    ensures EncodePlain(msg) == [0x01, msg.id % 256, msg.id / 256] + msg.body
  {
  }

  /** As many zeros as bring `n` bytes up to whole blocks of 16. */
  function ZerosFor(n: nat): seq<byte> {
    seq((16 - n % 16) % 16, _ => 0)
  }

  lemma ZerosForPadding(n: nat)
    ensures Zeros(Padding(n)) == ZerosFor(n)
  {
    assert Padding(n) == (16 - n % 16) % 16;
  }

  /** Counter, context, id and body behind the envelope byte, padded with zeros and encrypted. */
  lemma EncryptedBytes(c: BlockCipher, key: seq<byte>, count: uint16, msg: Message)
    requires |key| in {16, 24, 32}
    ensures var plain := [count % 256, count / 256, 0x01, msg.id % 256, msg.id / 256] + msg.body;
      && |plain + ZerosFor(5 + |msg.body|)| % 16 == 0
      && EncodeEncrypted(c, key, count, msg)
         == Success([0x26] + Ecb(Encryptor(c, key), plain + ZerosFor(5 + |msg.body|)))
  {
    var plain := [count % 256, count / 256, 0x01, msg.id % 256, msg.id / 256] + msg.body;
    assert Plaintext(count, msg) == plain;
    ZerosForPadding(|plain|);
  }

  /** Block by block, each on its own and in its place. */
  lemma EcbBlock(f: seq<byte> -> seq<byte>, s: seq<byte>, k: nat)
    requires OnBlocks(f) && |s| % 16 == 0 && k % 16 == 0 && k + 16 <= |s|
    ensures |Ecb(f, s)| == |s| && Ecb(f, s)[k..k + 16] == f(s[k..k + 16])
  {
    hide Ecb;
    var front, back := Ecb(f, s[..k]), Ecb(f, s[k + 16..]);
    EcbLength(f, s);
    EcbLength(f, s[..k]);
    EcbNext(f, s, k);
    EcbSplit(f, s, k + 16);
    Middle(front, f(s[k..k + 16]), back);
  }

  lemma Middle(front: seq<byte>, middle: seq<byte>, back: seq<byte>)
    ensures (front + middle + back)[|front|..|front| + |middle|] == middle
  {
  }

  // -------------------------------------------------- what the parser takes

  /** Two markers are known, 0x5713 and 0x5813. */
  lemma KnownMarkers(buf: seq<byte>)
    requires |buf| >= 3
    ensures FrontOf(buf) == Malformed(UnknownMarker(buf[0] + 256 * (buf[1] as int)))
        <==> !(buf[0] == 0x13 && (buf[1] == 0x57 || buf[1] == 0x58))
  {
    var marker := buf[0] + 256 * (buf[1] as int);
    assert marker == 0x5713 <==> buf[0] == 0x13 && buf[1] == 0x57;
    assert marker == 0x5813 <==> buf[0] == 0x13 && buf[1] == 0x58;
  }

  /** The length limit is 1 MiB exactly, and a longer frame is refused as soon as its length is
      there. */
  lemma LengthLimit(f: Frame, buf: seq<byte>)
    requires (f.marker == 0x5713 || f.marker == 0x5813) && |f.payload| < 0x8000_0000
    requires StandsAt(Encode(f), buf, 0)
    ensures FrontOf(buf) ==
      if |f.payload| <= 1_048_576 then Whole(f, 2 + |VarInt.Encode(|f.payload|)| + |f.payload|)
      else Malformed(InvalidFrameLength(|f.payload|))
  {
    hide VarInt.Encode, VarInt.Decode;
    EncodedLength(f, buf);
    VarInt.FitsInt32(|f.payload|);
    FrameRoundTrip(f, buf);
  }

  // --------------------------------------------- what each frame does

  /** A plain message below 0xFA00 is an application call; from there on it is internal. */
  lemma PlainFrame(server: Server, n: nat, link: Link, marker: uint16, lo: byte, hi: byte, body: seq<byte>)
    ensures var id := lo + 256 * hi;
      Handle(server, n, link, Frame(marker, [0x01, lo, hi] + body))
      == Outcome(Success(if id < 0xFA00 then PlainRmi(Message(id, body)) else InternalRmi(Message(id, body))), link)
  {
    var p := [0x01, lo, hi] + body;
    assert p[3..] == body;
  }

  lemma ShortPlainFrame(server: Server, n: nat, link: Link, marker: uint16, rest: seq<byte>)
    requires |rest| < 2
    ensures Handle(server, n, link, Frame(marker, [0x01] + rest)) == Outcome(Success(MalformedPlain), link)
  {
  }

  /** The same split in what the receiver is said to make of a plain message sent. */
  lemma PlainExpected(count: uint16, msg: Message)
    ensures Stream.EventOf(count, Stream.SendPlain(msg)) == if msg.id < 0xFA00 then PlainRmi(msg) else InternalRmi(msg)
  {
  }

  lemma EncryptedExpected(count: uint16, msg: Message)
    ensures Stream.EventOf(count, Stream.SendEncrypted(msg))
         == EncryptedRmi(Message(msg.id, msg.body + ZerosFor(5 + |msg.body|)), count)
  {
    ZerosForPadding(5 + |msg.body|);
  }

  /** An encrypted message: whatever id it carries it is an application call. */
  lemma EncryptedFrame(server: Server, n: nat, link: Link, marker: uint16, plain: seq<byte>)
    requires link.established && |link.key| in {16, 24, 32} && 0 < |plain| && |plain| % 16 == 0
    ensures Handle(server, n, link, Frame(marker, [0x26] + Ecb(Encryptor(server.cipher, link.key), plain)))
         == Outcome(Success(EncryptedRmi(Message(plain[3] + 256 * (plain[4] as int), plain[5..]),
           plain[0] + 256 * (plain[1] as int))), link)
  {
    hide Ecb, DecodeEncrypted, Handle, Encryptor, ValidKey;
    var payload := [0x26] + Ecb(Encryptor(server.cipher, link.key), plain);
    AtLeastFive(plain);
    Envelope(server.cipher, link.key, plain);
    HandlesDecoded(server, n, link, Frame(marker, payload), plain);
  }

  lemma HandlesDecoded(server: Server, n: nat, link: Link, f: Frame, plain: seq<byte>)
    requires link.established && f.payload != [] && f.payload[0] == 0x26 && |plain| >= 5
    requires DecodeEncrypted(server.cipher, link.key, f.payload)
          == Success((Message(plain[3] + 256 * (plain[4] as int), plain[5..]), plain[0] + 256 * (plain[1] as int)))
    ensures Handle(server, n, link, f) == Outcome(Success(EncryptedRmi(
        Message(plain[3] + 256 * (plain[4] as int), plain[5..]), plain[0] + 256 * (plain[1] as int))), link)
  {
    hide DecodeEncrypted, DecodePlain, ParseCryptoSetup, ParseClientConnect;
  }

  lemma AtLeastFive(plain: seq<byte>)
    requires 0 < |plain| && |plain| % 16 == 0
    ensures |plain| >= 5
  {
  }

  lemma Envelope(c: BlockCipher, key: seq<byte>, plain: seq<byte>)
    requires |key| in {16, 24, 32} && |plain| % 16 == 0 && |plain| >= 5
    ensures DecodeEncrypted(c, key, [0x26] + Ecb(Encryptor(c, key), plain))
         == Success((Message(plain[3] + 256 * (plain[4] as int), plain[5..]), plain[0] + 256 * (plain[1] as int)))
  {
    hide Ecb, EcbDecrypt, DecodeEncrypted, Encryptor, ValidKey;
    DecryptsTo(c, key, plain);
    var encrypted := Ecb(Encryptor(c, key), plain);
    assert ([0x26] + encrypted)[1..] == encrypted;
    Decoded(c, key, [0x26] + encrypted, plain);
  }

  lemma Decoded(c: BlockCipher, key: seq<byte>, payload: seq<byte>, plain: seq<byte>)
    requires payload != [] && payload[0] == 0x26 && |plain| >= 5 && EcbDecrypt(c, key, payload[1..]) == Success(plain)
    ensures DecodeEncrypted(c, key, payload)
         == Success((Message(plain[3] + 256 * (plain[4] as int), plain[5..]), plain[0] + 256 * (plain[1] as int)))
  {
    hide EcbDecrypt;
  }

  lemma DecryptsTo(c: BlockCipher, key: seq<byte>, plain: seq<byte>)
    requires |key| in {16, 24, 32} && |plain| % 16 == 0
    ensures EcbDecrypt(c, key, Ecb(Encryptor(c, key), plain)) == Success(plain)
  {
    hide Ecb;
    EcbInverse(c, key, plain);
  }

  lemma EncryptedRefused(server: Server, n: nat, link: Link, marker: uint16, rest: seq<byte>)
    ensures !link.established || |link.key| !in {16, 24, 32} || |rest| % 16 != 0 || rest == [] ==>
      Handle(server, n, link, Frame(marker, [0x26] + rest)) == Outcome(Failure(
        if !link.established then NotEstablished
        else Undecodable(
          if |link.key| !in {16, 24, 32} then InvalidKeySize
          else if rest == [] then TooShort
          else NotBlockAligned)), link)
  {
    assert ([0x26] + rest)[1..] == rest;
  }

  /** The opening probe: 0x32 and one of two 32-bit numbers, on the reliable marker. */
  lemma HelloIs(f: Frame)
    ensures IsClientHello(f) <==>
      && f.marker == 0x5713 && |f.payload| >= 5 && f.payload[0] == 0x32
      && var p := f.payload;
         p[1] as int + 0x100 * (p[2] as int) + 0x1_0000 * (p[3] as int) + 0x100_0000 * (p[4] as int)
         in {0x4000_000F, 0x4000_0010}
  {
    if |f.payload| >= 5 {
      var p := f.payload;
      var four := p[1..5];
      assert four == [p[1], p[2], p[3], p[4]];
      assert forall x: byte :: four == [x, 0, 0, 0x40] <==> p[1] == x && p[2] == 0 && p[3] == 0 && p[4] == 0x40;
    }
  }

  /** Frames with a reply: the probe and the heartbeat are answered, and change nothing. */
  lemma AnsweredFrame(server: Server, n: nat, link: Link, f: Frame)
    requires IsClientHello(f) || (f.payload != [] && f.payload[0] == 0x1C)
    ensures Handle(server, n, link, f)
         == Outcome(if server.replies(n) then Success(Control(f.payload)) else Failure(ReplyFailed), link)
  {
  }

  /** A frame of any other kind is passed over, whether replies go out or not. */
  lemma UnknownFrame(server: Server, n: nat, link: Link, f: Frame)
    requires !IsClientHello(f) && (f.payload == [] || f.payload[0] !in {0x01, 0x06, 0x08, 0x1C, 0x26})
    ensures Handle(server, n, link, f) == Outcome(Success(Control(f.payload)), link)
  {
  }

  lemma ArrayReads(buf: seq<byte>, offset: nat, data: seq<byte>)
    requires |data| < 0x8000_0000 && StandsAt(VarInt.Encode(|data|) + data, buf, offset)
    ensures ReadByteArray(buf, offset) == Some((data, offset + |VarInt.Encode(|data|)| + |data|))
  {
    hide VarInt.Encode, VarInt.Decode;
    var length := VarInt.Encode(|data|);
    StandsAtSplit(length, data, buf, offset);
    VarInt.RoundTrip(buf, offset, |data|);
    StandsAtSlice(data, buf, offset + |length|);
  }

  lemma StandsInside(front: seq<byte>, s: seq<byte>, back: seq<byte>)
    ensures StandsAt(s, front + s + back, |front|)
  {
  }

  /** Crypto setup: with a key that unwraps to a valid size and a proof of whole blocks, the
      session is established under that key; otherwise nothing changes and the loop ends. */
  lemma SetupFrame(
    server: Server, n: nat, link: Link, marker: uint16, wrapped: seq<byte>, proof: seq<byte>, rest: seq<byte>)
    requires |wrapped| < 0x8000_0000 && |proof| < 0x8000_0000
    ensures var payload := [0x06] + (VarInt.Encode(|wrapped|) + wrapped) + (VarInt.Encode(|proof|) + proof) + rest;
      Handle(server, n, link, Frame(marker, payload)) ==
        match server.unwrap(wrapped)
        case None => Outcome(Failure(BadSetup), link)
        case Some(key) =>
          if |key| in {16, 24, 32} && |proof| % 16 == 0 then
            Outcome(if server.replies(n) then Success(Control(payload)) else Failure(ReplyFailed),
              link.(key := key, established := true))
          else Outcome(Failure(BadSetup), link)
  {
    hide VarInt.Encode, ReadByteArray;
    var first, second := VarInt.Encode(|wrapped|) + wrapped, VarInt.Encode(|proof|) + proof;
    var payload := [0x06] + first + second + rest;
    StandsInside([0x06], first, second + rest);
    assert payload == [0x06] + first + (second + rest);
    ArrayReads(payload, 1, wrapped);
    StandsInside([0x06] + first, second, rest);
    ArrayReads(payload, 1 + |first|, proof);
    assert payload[0] == 0x06;
  }

  /** Client connect: the 16 bytes behind the token are the connection's identifier. */
  lemma ConnectFrame(server: Server, n: nat, link: Link, marker: uint16, token: seq<byte>, rest: seq<byte>)
    requires |token| < 0x8000_0000
    ensures var payload := [0x08] + (VarInt.Encode(|token|) + token) + rest;
      Handle(server, n, link, Frame(marker, payload)) ==
        if |rest| < 16 then Outcome(Failure(BadConnect), link)
        else Outcome(if server.replies(n) then Success(Control(payload)) else Failure(ReplyFailed),
          link.(guid := rest[..16]))
  {
    hide VarInt.Encode, ReadByteArray;
    var first := VarInt.Encode(|token|) + token;
    var payload := [0x08] + first + rest;
    StandsInside([0x08], first, rest);
    ArrayReads(payload, 1, token);
    assert payload[0] == 0x08;
    if |rest| >= 16 {
      assert payload[1 + |first|..1 + |first| + 16] == rest[..16];
    }
  }
}
