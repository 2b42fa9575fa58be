/** A connection: the mutex-guarded writer and the receive loop. */
module Session {
  import opened Bytes
  import opened Wrappers
  import opened Rmi
  import opened Frame
  import VarInt

  // ---------------------------------------------------------------- sending

  datatype SendError = CryptoFailed(error: CryptoError) | WriteFailed | UnexpectedEOF

  /** The transport as its writer sees it: every write takes any part of what it is given, and
      may fail after taking it. */
  class Conn {
    var wire: seq<byte>

    constructor ()
      ensures wire == []
    {
      wire := [];
    }

    method Write(p: seq<byte>) returns (written: nat, failed: bool)
      modifies this
      ensures written <= |p| && wire == old(wire) + p[..written]
    {
      written :| 0 <= written <= |p|;
      failed := *;
      wire := wire + p[..written];
    }
  }

  function Total(writes: seq<nat>): nat {
    if writes == [] then 0 else Total(writes[..|writes| - 1]) + writes[|writes| - 1]
  }

  /** The writes that put out a whole frame, or stopped short: then the last one failed, or
      took nothing. */
  predicate WritesOf(length: nat, writes: seq<nat>, complete: bool) {
    if complete then Total(writes) == length && forall i | 0 <= i < |writes| :: writes[i] > 0
    else
      && writes != [] && Total(writes) <= length && Total(writes[..|writes| - 1]) < length
      && forall i | 0 <= i < |writes| - 1 :: writes[i] > 0
  }

  /** What a send leaves on the wire: the whole frame, or on an error some front part of it. */
  predicate FrameWritten(was: seq<byte>, now: seq<byte>, payload: seq<byte>, writes: seq<nat>, complete: bool) {
    var frame := Encode(Frame(MARKER_RELIABLE, payload));
    WritesOf(|frame|, writes, complete) && Total(writes) <= |frame| && now == was + frame[..Total(writes)]
  }

  lemma TotalSnoc(writes: seq<nat>, n: nat)
    ensures Total(writes + [n]) == Total(writes) + n && (writes + [n])[..|writes|] == writes
  {
    assert (writes + [n])[..|writes|] == writes;
  }

  /** What one more write leaves on the wire, and what it leaves to be written. */
  lemma Pushed(was: seq<byte>, whole: seq<byte>, sent: nat, n: nat)
    requires sent + n <= |whole|
    ensures was + whole[..sent] + whole[sent..][..n] == was + whole[..sent + n]
    ensures whole[sent..][n..] == whole[sent + n..]
  {
  }

  lemma NothingWritten(was: seq<byte>, whole: seq<byte>)
    ensures Total([]) == 0 && was + whole[..0] == was
  {
  }

  class Session {
    const conn: Conn
    const cipher: BlockCipher
    var sessionKey: seq<byte>
    var established: bool
    var encryptCount: uint16

    constructor (conn: Conn, cipher: BlockCipher)
      ensures this.conn == conn && this.cipher == cipher && sessionKey == [] && !established && encryptCount == 0
    {
      this.conn, this.cipher, sessionKey, established, encryptCount := conn, cipher, [], false, 0;
    }

    method WriteReliableLocked(payload: seq<byte>) returns (error: Option<SendError>, ghost writes: seq<nat>)
      modifies conn
      ensures FrameWritten(old(conn.wire), conn.wire, payload, writes, error.None?)
    {
      hide Encode, Total;
      var frame := EncodeFrame(MARKER_RELIABLE, payload);
      ghost var whole, was, sent := frame, conn.wire, 0;
      writes := [];
      NothingWritten(was, whole);
      while |frame| != 0
        invariant sent == Total(writes) <= |whole| && frame == whole[sent..]
        invariant conn.wire == was + whole[..sent]
        invariant forall i | 0 <= i < |writes| :: writes[i] > 0
        decreases |frame|
      {
        var written, failed := conn.Write(frame);
        Pushed(was, whole, sent, written);
        TotalSnoc(writes, written);
        writes, sent := writes + [written], sent + written;
        if failed {
          return Some(WriteFailed), writes;
        }
        if written == 0 {
          return Some(UnexpectedEOF), writes;
        }
        frame := frame[written..];
      }
      return None, writes;
    }

    method SendReliable(payload: seq<byte>) returns (error: Option<SendError>, ghost writes: seq<nat>)
      modifies conn
      ensures FrameWritten(old(conn.wire), conn.wire, payload, writes, error.None?)
    {
      error, writes := WriteReliableLocked(payload);
    }

    method SendPlain(msg: Message) returns (error: Option<SendError>, ghost writes: seq<nat>)
      modifies conn
      ensures FrameWritten(old(conn.wire), conn.wire, EncodePlain(msg), writes, error.None?)
    {
      error, writes := SendReliable(EncodePlain(msg));
    }

    /** The counter moves on once the message is encrypted, whatever becomes of the write. */
    method SendEncrypted(msg: Message) returns (error: Option<SendError>, ghost writes: seq<nat>)
      modifies this`encryptCount, conn
      ensures match EncodeEncrypted(cipher, sessionKey, old(encryptCount), msg)
              case Failure(e) =>
                error == Some(CryptoFailed(e)) && encryptCount == old(encryptCount) && conn.wire == old(conn.wire)
              case Success(payload) =>
                && encryptCount == (old(encryptCount) + 1) % 0x1_0000
                && FrameWritten(old(conn.wire), conn.wire, payload, writes, error.None?)
    {
      var payload := EncodeEncryptedRmi(cipher, sessionKey, encryptCount, msg);
      if payload.Failure? {
        return Some(CryptoFailed(payload.error)), [];
      }
      encryptCount := (encryptCount + 1) % 0x1_0000;
      error, writes := WriteReliableLocked(payload.value);
    }
  }

  // -------------------------------------------------------------- receiving

  const CRYPTO_SETUP: byte := 0x06
  const CLIENT_CONNECT: byte := 0x08
  const HEARTBEAT: byte := 0x1C
  const CLIENT_HELLO: byte := 0x32

  /** What the server brings to a connection: the cipher, the RSA key's view of a wrapped session
      key, and whether the reply to the n-th frame goes out. */
  datatype Server = Server(cipher: BlockCipher, unwrap: seq<byte> -> Option<seq<byte>>, replies: nat -> bool)

  /** What the handshake has agreed on so far. */
  datatype Link = Link(key: seq<byte>, established: bool, guid: seq<byte>)

  /** What one frame means to the connection's owner. Handshake, heartbeat and unknown frames are
      the `Control` ones; an internal plain RMI is decoded and then not dispatched. */
  datatype Event =
    | PlainRmi(msg: Message)
    | InternalRmi(msg: Message)
    | MalformedPlain
    | EncryptedRmi(msg: Message, count: uint16)
    | Control(payload: seq<byte>)

  datatype HandleError = NotEstablished | Undecodable(error: CryptoError) | BadSetup | BadConnect | ReplyFailed

  function FrameType(payload: seq<byte>): byte {
    if |payload| == 0 then 0 else payload[0]
  }

  predicate IsClientHello(f: Frame) {
    && f.marker == MARKER_RELIABLE && |f.payload| >= 5 && f.payload[0] == CLIENT_HELLO
    && (f.payload[1..5] == [0x0F, 0, 0, 0x40] || f.payload[1..5] == [0x10, 0, 0, 0x40])
  }

  /** A length and that many bytes; the second part is where they end. */
  function ReadByteArray(buf: seq<byte>, offset: nat): (r: Option<(seq<byte>, nat)>)
    ensures r.Some? ==> offset <= r.value.1 <= |buf|
  {
    match VarInt.Decode(buf, offset)
    case Incomplete => None
    case TooLong => None
    case Value(length, n) =>
      var start := offset + n;
      if length < 0 || start + length > |buf| then None
      else Some((buf[start..start + length], start + length))
  }

  /** The session key, when both parts are there, the key unwraps and the proof decrypts. */
  function ParseCryptoSetup(server: Server, payload: seq<byte>): Option<seq<byte>> {
    match ReadByteArray(payload, 1)
    case None => None
    case Some((wrapped, next)) =>
      match ReadByteArray(payload, next)
      case None => None
      case Some((proof, _)) =>
        match server.unwrap(wrapped)
        case None => None
        case Some(key) => if EcbDecrypt(server.cipher, key, proof).Success? then Some(key) else None
  }

  /** The client's 16-byte identifier behind its token. */
  function ParseClientConnect(payload: seq<byte>): Option<seq<byte>> {
    match ReadByteArray(payload, 1)
    case None => None
    case Some((_, next)) => if next + 16 > |payload| then None else Some(payload[next..next + 16])
  }

  datatype Outcome = Outcome(result: Result<Event, HandleError>, link: Link)

  /** A control frame is done once its reply is out. */
  function Replied(server: Server, n: nat, link: Link, payload: seq<byte>): Outcome {
    Outcome(if server.replies(n) then Success(Control(payload)) else Failure(ReplyFailed), link)
  }

  /** The n-th frame of a connection. */
  function Handle(server: Server, n: nat, link: Link, f: Frame): Outcome {
    var kind := FrameType(f.payload);
    if IsClientHello(f) then Replied(server, n, link, f.payload)
    else if kind == CRYPTO_SETUP then
      match ParseCryptoSetup(server, f.payload)
      case None => Outcome(Failure(BadSetup), link)
      case Some(key) => Replied(server, n, link.(key := key, established := true), f.payload)
    else if kind == CLIENT_CONNECT then
      match ParseClientConnect(f.payload)
      case None => Outcome(Failure(BadConnect), link)
      case Some(guid) => Replied(server, n, link.(guid := guid), f.payload)
    else if kind == HEARTBEAT then Replied(server, n, link, f.payload)
    else if kind == ENVELOPE_ENCRYPTED then
      if !link.established then Outcome(Failure(NotEstablished), link)
      else match DecodeEncrypted(server.cipher, link.key, f.payload)
        case Failure(e) => Outcome(Failure(Undecodable(e)), link)
        case Success((msg, count)) => Outcome(Success(EncryptedRmi(msg, count)), link)
    else if kind == ENVELOPE_PLAIN then
      match DecodePlain(f.payload)
      case None => Outcome(Success(MalformedPlain), link)
      case Some(msg) => Outcome(Success(if IsInternal(msg) then InternalRmi(msg) else PlainRmi(msg)), link)
    else Outcome(Success(Control(f.payload)), link)
  }

  /** The events of a run of frames up to the first that cannot be handled. */
  datatype Handled = Handled(events: seq<Event>, ok: bool, link: Link)

  function After(events: seq<Event>, h: Handled): Handled {
    h.(events := events + h.events)
  }

  lemma AfterAfter(es: seq<Event>, ds: seq<Event>, h: Handled)
    ensures After(es, After(ds, h)) == After(es + ds, h)
  {
    assert es + (ds + h.events) == (es + ds) + h.events;
  }

  function HandleAll(server: Server, n: nat, link: Link, frames: seq<Frame>): Handled
    decreases |frames|
  {
    if frames == [] then Handled([], true, link)
    else
      var o := Handle(server, n, link, frames[0]);
      match o.result
      case Failure(_) => Handled([], false, o.link)
      case Success(e) => After([e], HandleAll(server, n + 1, o.link, frames[1..]))
  }

  /** The receive loop between two reads: bytes awaiting more, events so far, whether the
      connection has been dropped, and the handshake's state. */
  datatype Receiver = Receiver(pending: seq<byte>, events: seq<Event>, closed: bool, link: Link)

  function Fresh(link: Link): Receiver {
    Receiver([], [], false, link)
  }

  /** One turn of the loop. A parse error drops the connection before any frame of this read
      is handled. */
  function Receive(server: Server, rx: Receiver, chunk: seq<byte>): Receiver {
    if rx.closed then rx
    else
      var p := Parse(rx.pending + chunk);
      if p.error.Some? then rx.(pending := rx.pending + chunk, closed := true)
      else
        var h := After(rx.events, HandleAll(server, |rx.events|, rx.link, p.frames));
        Receiver(p.remaining, h.events, !h.ok, h.link)
  }

  class Connection {
    const server: Server
    var pending: seq<byte>
    var events: seq<Event>
    var closed: bool
    var link: Link

    constructor (server: Server)
      ensures this.server == server && State() == Fresh(Link([], false, []))
    {
      this.server, pending, events, closed, link := server, [], [], false, Link([], false, []);
    }

    function State(): Receiver
      reads this
    {
      Receiver(pending, events, closed, link)
    }

    method HandleFrame(f: Frame) returns (r: Result<Event, HandleError>)
      modifies this`link
      ensures Outcome(r, link) == Handle(server, |events|, old(link), f)
    {
      var kind := FrameType(f.payload);
      if IsClientHello(f) {
        return Answer(f.payload);
      } else if kind == CRYPTO_SETUP {
        var key := ParseCryptoSetup(server, f.payload);
        if key.None? {
          return Failure(BadSetup);
        }
        link := link.(key := key.value, established := true);
        return Answer(f.payload);
      } else if kind == CLIENT_CONNECT {
        var guid := ParseClientConnect(f.payload);
        if guid.None? {
          return Failure(BadConnect);
        }
        link := link.(guid := guid.value);
        return Answer(f.payload);
      } else if kind == HEARTBEAT {
        return Answer(f.payload);
      } else if kind == ENVELOPE_ENCRYPTED {
        if !link.established {
          return Failure(NotEstablished);
        }
        var decoded := DecodeEncryptedRmi(server.cipher, link.key, f.payload);
        if decoded.Failure? {
          return Failure(Undecodable(decoded.error));
        }
        return Success(EncryptedRmi(decoded.value.0, decoded.value.1));
      } else if kind == ENVELOPE_PLAIN {
        var msg := DecodePlain(f.payload);
        if msg.None? {
          return Success(MalformedPlain);
        }
        return Success(if IsInternal(msg.value) then InternalRmi(msg.value) else PlainRmi(msg.value));
      }
      return Success(Control(f.payload));
    }

    /** Whether the reply to the frame at hand went out. */
    function Answer(payload: seq<byte>): Result<Event, HandleError>
      reads this
    {
      if server.replies(|events|) then Success(Control(payload)) else Failure(ReplyFailed)
    }

    method OnRead(chunk: seq<byte>)
      requires !closed
      modifies this
      ensures State() == Receive(server, old(State()), chunk)
    {
      hide Handle, Parse;
      pending := pending + chunk;
      var frames, remaining, error := ParseFrames(pending);
      if error.Some? {
        closed := true;
        return;
      }
      pending := remaining;
      ghost var all := After(events, HandleAll(server, |events|, link, frames));
      assert frames[0..] == frames;
      for i := 0 to |frames|
        invariant pending == remaining && !closed
        invariant After(events, HandleAll(server, |events|, link, frames[i..])) == all
      {
        assert frames[i..][0] == frames[i] && frames[i..][1..] == frames[i + 1..];
        var event := HandleFrame(frames[i]);
        if event.Failure? {
          closed := true;
          return;
        }
        AfterAfter(events, [event.value], HandleAll(server, |events| + 1, link, frames[i + 1..]));
        events := events + [event.value];
      }
    }
  }

  lemma {:induction false} HandleAppend(server: Server, n: nat, link: Link, fs: seq<Frame>, gs: seq<Frame>)
    ensures var h := HandleAll(server, n, link, fs);
            HandleAll(server, n, link, fs + gs)
            == if h.ok then After(h.events, HandleAll(server, n + |h.events|, h.link, gs)) else h
    decreases |fs|
  {
    hide Handle;
    if fs == [] {
      assert fs + gs == gs;
      assert HandleAll(server, n, link, gs).events == [] + HandleAll(server, n, link, gs).events;
    } else {
      assert (fs + gs)[0] == fs[0] && (fs + gs)[1..] == fs[1..] + gs;
      var o := Handle(server, n, link, fs[0]);
      HandleAppend(server, n + 1, o.link, fs[1..], gs);
      if o.result.Success? {
        var h := HandleAll(server, n + 1, o.link, fs[1..]);
        AfterAfter([o.result.value], h.events, HandleAll(server, n + 1 + |h.events|, h.link, gs));
      }
    }
  }

  /** The loop keeps nothing it could still parse. */
  predicate Drained(rx: Receiver) {
    !rx.closed ==> Parse(rx.pending) == Parsed([], rx.pending, None)
  }

  lemma {:induction false} RemainderIsPartial(buf: seq<byte>)
    requires Parse(buf).error.None?
    ensures Parse(Parse(buf).remaining) == Parsed([], Parse(buf).remaining, None)
    decreases |buf|
  {
    if FrontOf(buf).Whole? {
      RemainderIsPartial(buf[FrontOf(buf).size..]);
    }
  }

  lemma ReceiveDrains(server: Server, rx: Receiver, chunk: seq<byte>)
    requires Drained(rx)
    ensures var rx' := Receive(server, rx, chunk);
            Drained(rx') && (!rx'.closed ==> |rx'.pending| <= MAX_FRAME_LENGTH + 6)
  {
    if !rx.closed && Parse(rx.pending + chunk).error.None? {
      RemainderIsPartial(rx.pending + chunk);
      RemainingBounded(rx.pending + chunk);
    }
  }

  /** What the network's cutting can change: nothing while the stream is well formed. On a
      malformed one the connection is dropped either way, and the frames in front of the
      malformed bytes are handled exactly when an earlier read brought them. */
  lemma ReceiveChunks(server: Server, rx: Receiver, a: seq<byte>, b: seq<byte>)
    requires !rx.closed
    ensures var whole := Receive(server, rx, a + b);
            var cut := Receive(server, Receive(server, rx, a), b);
            && whole.closed == cut.closed
            && whole.events <= cut.events
            && (!whole.closed ==> whole == cut)
            && (Parse(rx.pending + a + b).error.Some? ==> whole.events == rx.events)
            && (whole.events == cut.events <==>
                  Parse(rx.pending + a + b).error.None? || Receive(server, rx, a).events == rx.events)
  {
    hide Parse, HandleAll;
    var p := Parse(rx.pending + a);
    assert rx.pending + (a + b) == rx.pending + a + b;
    ParseChunks(rx.pending + a, b);
    if p.error.None? {
      var q := Parse(p.remaining + b);
      var h := HandleAll(server, |rx.events|, rx.link, p.frames);
      HandleAppend(server, |rx.events|, rx.link, p.frames, q.frames);
      AfterAfter(rx.events, h.events, HandleAll(server, |rx.events| + |h.events|, h.link, q.frames));
    }
  }

  lemma UnknownHandled(server: Server, link: Link)
    ensures HandleAll(server, 0, link, [Frame(MARKER_RELIABLE, [0x02])]) == Handled([Control([0x02])], true, link)
  {
    var f := Frame(MARKER_RELIABLE, [0x02]);
    assert [f][1..] == [];
  }

  /** The dependence on the cutting is real: a frame nobody handles, followed by two wrong bytes
      and a third, is seen when it arrives alone, and lost when all of it arrives at once. */
  lemma CutMatters(server: Server, link: Link)
    ensures var a, b := [0x13, 0x57, 1, 0x02], [0, 0, 0];
            && Receive(server, Fresh(link), a + b).events == []
            && Receive(server, Receive(server, Fresh(link), a), b).events == [Control([0x02])]
  {
    var a: seq<byte>, b: seq<byte> := [0x13, 0x57, 1, 0x02], [0, 0, 0];
    var f := Frame(MARKER_RELIABLE, [0x02]);
    assert FrontOf(a) == Whole(f, 4) by {
      assert Encode(f) == a;
      FrameRoundTrip(f, a);
    }
    assert FrontOf(b) == Malformed(UnknownMarker(0));
    UnknownHandled(server, link);
    hide FrontOf, HandleAll;
    assert a[4..] == [] && [] + a == a && [] + b == b && [] + (a + b) == a + b;
    assert Parse(a) == Parsed([f], [], None);
    ParseChunks(a, b);
  }
}
