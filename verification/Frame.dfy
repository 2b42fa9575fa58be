/** ProudNet frames and the stream parser that reassembles them. */
module Frame {
  import opened Bytes
  import opened Wrappers
  import VarInt

  const MARKER_RELIABLE: uint16 := 0x5713
  const MARKER_UNRELIABLE: uint16 := 0x5813
  const MAX_FRAME_LENGTH: nat := 1024 * 1024

  datatype Frame = Frame(marker: uint16, payload: seq<byte>)

  datatype ParseError = UnknownMarker(marker: uint16) | LengthTooLong | InvalidFrameLength(length: int)

  /** Frames found, the unconsumed rest, and the error that stopped the parser, if any. */
  datatype Parsed = Parsed(frames: seq<Frame>, remaining: seq<byte>, error: Option<ParseError>)

  /** What the front of a buffer is: a partial frame, a malformed one, or a whole one. */
  datatype Front = Partial | Malformed(error: ParseError) | Whole(frame: Frame, size: nat)

  function Encode(frame: Frame): seq<byte> {
    Put16(frame.marker) + VarInt.Encode(|frame.payload|) + frame.payload
  }

  function FrontOf(buf: seq<byte>): (front: Front)
    ensures front.Whole? ==> 3 <= front.size <= |buf|
    ensures |buf| < 3 ==> front.Partial?
  {
    if |buf| < 3 then Partial
    else
      var marker := Get16(buf, 0);
      if marker != MARKER_RELIABLE && marker != MARKER_UNRELIABLE then Malformed(UnknownMarker(marker))
      else
        VarInt.DecodeConsumes(buf, 2, 0, 0);
        match VarInt.Decode(buf, 2)
        case Incomplete => Partial
        case TooLong => Malformed(LengthTooLong)
        case Value(length, n) =>
          if length < 0 || length > MAX_FRAME_LENGTH then Malformed(InvalidFrameLength(length))
          else if |buf| < 2 + n + length then Partial
          else Whole(Frame(marker, buf[2 + n..2 + n + length]), 2 + n + length)
  }

  function Parse(buf: seq<byte>): Parsed {
    match FrontOf(buf)
    case Partial => Parsed([], buf, None)
    case Malformed(e) => Parsed([], buf, Some(e))
    case Whole(frame, size) => Before([frame], Parse(buf[size..]))
  }

  /** A result with `frames` found in front of it. */
  function Before(frames: seq<Frame>, p: Parsed): Parsed {
    Parsed(frames + p.frames, p.remaining, p.error)
  }

  lemma BeforeBefore(fs: seq<Frame>, gs: seq<Frame>, p: Parsed)
    ensures Before(fs, Before(gs, p)) == Before(fs + gs, p)
  {
    assert fs + (gs + p.frames) == (fs + gs) + p.frames;
  }

  method EncodeFrame(marker: uint16, payload: seq<byte>) returns (frame: seq<byte>)
    ensures frame == Encode(Frame(marker, payload))
  {
    var length := VarInt.EncodeVarInt(|payload|);
    frame := Put16(marker);
    frame := frame + length;
    frame := frame + payload;
  }

  /** The front of the rest of a buffer, read at an offset as the parser does. */
  lemma FrontAt(buf: seq<byte>, offset: nat)
    requires offset + 3 <= |buf|
    ensures var marker := Get16(buf, offset);
            FrontOf(buf[offset..]) ==
            if marker != MARKER_RELIABLE && marker != MARKER_UNRELIABLE then Malformed(UnknownMarker(marker))
            else match VarInt.Decode(buf, offset + 2)
                 case Incomplete => Partial
                 case TooLong => Malformed(LengthTooLong)
                 case Value(length, n) =>
                   if length < 0 || length > MAX_FRAME_LENGTH then Malformed(InvalidFrameLength(length))
                   else if |buf| < offset + 2 + n + length then Partial
                   else Whole(Frame(marker, buf[offset + 2 + n..offset + 2 + n + length]), 2 + n + length)
  {
    var rest := buf[offset..];
    assert rest[0] == buf[offset] && rest[1] == buf[offset + 1];
    VarInt.DecodeShift(buf, offset, 2, 0, 0);
    var d := VarInt.Decode(rest, 2);
    if d.Value? && 0 <= d.value <= MAX_FRAME_LENGTH && 2 + d.bytesRead + d.value <= |rest| {
      var n, length := d.bytesRead, d.value;
      assert rest[2 + n..2 + n + length] == buf[offset + 2 + n..offset + 2 + n + length];
    }
  }

  /** One turn of the parser's loop: what stands at `offset`. */
  method FrontFrame(buf: seq<byte>, offset: nat) returns (front: Front)
    requires offset + 3 <= |buf|
    ensures front == FrontOf(buf[offset..])
  {
    FrontAt(buf, offset);
    var marker := Get16(buf, offset);
    if marker != MARKER_RELIABLE && marker != MARKER_UNRELIABLE {
      return Malformed(UnknownMarker(marker));
    }
    var decoded := VarInt.DecodeVarInt(buf, offset + 2);
    if decoded.Incomplete? {
      return Partial;
    }
    if decoded.TooLong? {
      return Malformed(LengthTooLong);
    }
    var length := decoded.value;
    if length < 0 || length > MAX_FRAME_LENGTH {
      return Malformed(InvalidFrameLength(length));
    }
    var payloadOffset := offset + 2 + decoded.bytesRead;
    var frameEnd := payloadOffset + length;
    if |buf| < frameEnd {
      return Partial;
    }
    return Whole(Frame(marker, buf[payloadOffset..frameEnd]), frameEnd - offset);
  }

  /** Taking one whole frame at an offset moves it from the rest to the frames found. */
  lemma ParseStep(buf: seq<byte>, offset: nat, frame: Frame, size: nat, frames: seq<Frame>) returns (rest: Parsed)
    requires offset + size <= |buf| && FrontOf(buf[offset..]) == Whole(frame, size)
    ensures rest == Parse(buf[offset + size..])
    ensures Before(frames + [frame], rest) == Before(frames, Parse(buf[offset..]))
  {
    assert buf[offset..][size..] == buf[offset + size..];
    rest := Parse(buf[offset + size..]);
    BeforeBefore(frames, [frame], rest);
  }

  method ParseFrames(buf: seq<byte>) returns (frames: seq<Frame>, remaining: seq<byte>, error: Option<ParseError>)
    ensures Parsed(frames, remaining, error) == Parse(buf)
  {
    hide FrontOf;
    var offset := 0;
    frames := [];
    ghost var rest := Parse(buf);
    assert buf[0..] == buf;
    while |buf| - offset >= 3
      invariant 0 <= offset <= |buf|
      invariant rest == Parse(buf[offset..])
      invariant Before(frames, rest) == Parse(buf)
    {
      var front := FrontFrame(buf, offset);
      match front {
        case Partial =>
          break;
        case Malformed(e) =>
          return frames, buf[offset..], Some(e);
        case Whole(frame, size) =>
          rest := ParseStep(buf, offset, frame, size, frames);
          frames := frames + [frame];
          offset := offset + size;
      }
    }
    return frames, buf[offset..], None;
  }

  /** More bytes never change what the front of a buffer already was. */
  lemma FrontStable(a: seq<byte>, b: seq<byte>)
    requires !FrontOf(a).Partial?
    ensures FrontOf(a + b) == FrontOf(a)
  {
    assert (a + b)[0] == a[0] && (a + b)[1] == a[1];
    if VarInt.Decode(a, 2) != VarInt.Incomplete {
      VarInt.DecodeStable(a, b, 2, 0, 0);
    }
    if FrontOf(a).Whole? {
      var n := VarInt.Decode(a, 2).bytesRead;
      assert (a + b)[2 + n..FrontOf(a).size] == a[2 + n..FrontOf(a).size];
    }
  }

  /** Chunk independence: parsing a stream cut anywhere gives the same frames, and errors are
      as final as frames are. */
  lemma {:induction false} ParseChunks(a: seq<byte>, b: seq<byte>)
    ensures var p := Parse(a);
            Parse(a + b) == if p.error.Some? then Parsed(p.frames, p.remaining + b, p.error)
                            else Before(p.frames, Parse(p.remaining + b))
    decreases |a|
  {
    hide FrontOf;
    if !FrontOf(a).Partial? {
      FrontStable(a, b);
    }
    if FrontOf(a).Whole? {
      var size := FrontOf(a).size;
      ParseChunks(a[size..], b);
      assert (a + b)[size..] == a[size..] + b;
      var p := Parse(a[size..]);
      BeforeBefore([FrontOf(a).frame], p.frames, Parse(p.remaining + b));
    }
  }

  /** The error-free rest is a partial frame, so what a connection buffers is bounded. */
  lemma {:induction false} RemainingBounded(buf: seq<byte>)
    requires Parse(buf).error.None?
    ensures |Parse(buf).remaining| <= MAX_FRAME_LENGTH + 6
    decreases |buf|
  {
    match FrontOf(buf) {
      case Partial =>
        VarInt.DecodeConsumes(buf, 2, 0, 0);
      case Whole(_, size) =>
        RemainingBounded(buf[size..]);
    }
  }

  predicate IsMarker(marker: uint16) {
    marker == MARKER_RELIABLE || marker == MARKER_UNRELIABLE
  }

  /** The length prefix of an encoded frame as the parser sees it: wrapped to 32 bits. */
  lemma EncodedLength(f: Frame, buf: seq<byte>)
    requires StandsAt(Encode(f), buf, 0)
    ensures var n := |VarInt.Encode(|f.payload|)|;
            && |buf| >= 3 && Get16(buf, 0) == f.marker
            && VarInt.Decode(buf, 2) == VarInt.Value(VarInt.Signed(|f.payload| % VarInt.TWO_32), n)
            && StandsAt(f.payload, buf, 2 + n)
  {
    var length := VarInt.Encode(|f.payload|);
    VarInt.EncodeLength(|f.payload|);
    StandsAtSplit(Put16(f.marker) + length, f.payload, buf, 0);
    StandsAtSplit(Put16(f.marker), length, buf, 0);
    assert buf[0 + 0] == Put16(f.marker)[0] && buf[0 + 1] == Put16(f.marker)[1];
    VarInt.RoundTripModulo(buf, 2, |f.payload|);
  }

  /** A frame comes back, whatever follows it, exactly when its payload is at most 1 MiB; a
      larger one, which the encoder writes all the same, never does. */
  lemma FrameRoundTrip(f: Frame, buf: seq<byte>)
    requires IsMarker(f.marker) && StandsAt(Encode(f), buf, 0)
    ensures FrontOf(buf) == Whole(f, |Encode(f)|) <==> |f.payload| <= MAX_FRAME_LENGTH
  {
    EncodedLength(f, buf);
    VarInt.FitsInt32(|f.payload|);
    StandsAtSlice(f.payload, buf, 2 + |VarInt.Encode(|f.payload|)|);
  }

  /** A partial frame at the front: the parser takes nothing and asks for more. */
  lemma PrefixOfEncoded(f: Frame, k: nat)
    requires IsMarker(f.marker) && |f.payload| <= MAX_FRAME_LENGTH && k < |Encode(f)|
    ensures Parse(Encode(f)[..k]) == Parsed([], Encode(f)[..k], None)
  {
    var a, b := Encode(f)[..k], Encode(f)[k..];
    assert a + b == Encode(f);
    FrameRoundTrip(f, Encode(f));
    if !FrontOf(a).Partial? {
      FrontStable(a, b);
    }
  }
}
