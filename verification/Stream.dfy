/** Senders, network and receiver as one step system: any number of senders take the send lock
    in any order, the transport accepts any positive part of what it is given or breaks, and
    the network hands the bytes over in any pieces. */
module Stream {
  import opened Bytes
  import opened Wrappers
  import opened Rmi
  import opened Frame
  import opened Session

  datatype Send = SendPlain(msg: Message) | SendEncrypted(msg: Message) | SendReliable(payload: seq<byte>)

  /** A sender is between two sends, or holds a frame of which `rest` is still to be written. */
  datatype Local = Idle | Writing(rest: seq<byte>)

  datatype System = System(
    lock: Option<nat>,
    local: map<nat, Local>,
    encryptCount: uint16,
    log: seq<Send>,
    wire: seq<byte>,
    broken: bool,
    read: nat,
    rx: Receiver)

  datatype Act =
    | Lock(sender: nat, send: Send)
    | Write(sender: nat, written: nat)
    | Unlock(sender: nat)
    | Break(sender: nat, written: nat)
    | Read(size: nat)

  const READ_BUFFER: nat := 4096
  const COUNT_SPAN: nat := 0x1_0000

  /** What the receiving end holds once the handshake is over. */
  datatype Keys = Keys(server: Server, link: Link)

  /** Both ends hold the session key the handshake agreed on, and replies go out. */
  ghost predicate Ready(keys: Keys) {
    keys.link.established && ValidKey(keys.link.key) && forall n: nat :: keys.server.replies(n)
  }

  /** Payloads of at most 1 MiB; a raw payload must not pass for an RMI envelope, nor start the
      handshake anew. */
  predicate Admissible(send: Send) {
    match send
    case SendPlain(msg) => 3 + |msg.body| <= MAX_FRAME_LENGTH
    case SendEncrypted(msg) => 1 + Aligned(5 + |msg.body|) <= MAX_FRAME_LENGTH
    case SendReliable(payload) =>
      && |payload| <= MAX_FRAME_LENGTH
      && FrameType(payload) != ENVELOPE_PLAIN && FrameType(payload) != ENVELOPE_ENCRYPTED
      && FrameType(payload) != CRYPTO_SETUP && FrameType(payload) != CLIENT_CONNECT
  }

  function PayloadOf(keys: Keys, count: uint16, send: Send): seq<byte>
    requires Ready(keys)
  {
    match send
    case SendPlain(msg) => EncodePlain(msg)
    case SendEncrypted(msg) =>
      EncryptedRoundTrip(keys.server.cipher, keys.link.key, count, msg);
      EncodeEncrypted(keys.server.cipher, keys.link.key, count, msg).value
    case SendReliable(payload) => payload
  }

  function LocalOf(s: System, sender: nat): Local {
    if sender in s.local then s.local[sender] else Idle
  }

  function Put(s: System, sender: nat, l: Local): map<nat, Local> {
    s.local[sender := l]
  }

  function Start(keys: Keys): System {
    System(None, map[], 0, [], [], false, 0, Fresh(keys.link))
  }

  predicate Next(keys: Keys, s: System, a: Act, s': System)
    requires Ready(keys)
  {
    match a
    case Lock(id, send) =>
      && s.lock.None? && LocalOf(s, id).Idle? && Admissible(send)
      && s' == s.(
        lock := Some(id),
        local := Put(s, id, Writing(Encode(Frame(MARKER_RELIABLE, PayloadOf(keys, s.encryptCount, send))))),
        encryptCount := if send.SendEncrypted? then (s.encryptCount + 1) % COUNT_SPAN else s.encryptCount,
        log := s.log + [send])
    case Write(id, k) =>
      && LocalOf(s, id).Writing? && !s.broken && 0 < k <= |LocalOf(s, id).rest|
      && var rest := LocalOf(s, id).rest;
      && s' == s.(local := Put(s, id, Writing(rest[k..])), wire := s.wire + rest[..k])
    case Unlock(id) =>
      && LocalOf(s, id) == Writing([])
      && s' == s.(lock := None, local := Put(s, id, Idle))
    case Break(id, k) =>
      && LocalOf(s, id).Writing? && LocalOf(s, id).rest != [] && k <= |LocalOf(s, id).rest|
      && (s.broken ==> k == 0)
      && s' == s.(lock := None, local := Put(s, id, Idle), wire := s.wire + LocalOf(s, id).rest[..k], broken := true)
    case Read(n) =>
      && !s.rx.closed && 0 < n <= READ_BUFFER && s.read + n <= |s.wire|
      && s' == s.(read := s.read + n, rx := Receive(keys.server, s.rx, s.wire[s.read..s.read + n]))
  }

  // ------------------------------------------------- what should be received

  function EncryptedSends(log: seq<Send>): nat {
    if log == [] then 0
    else EncryptedSends(log[..|log| - 1]) + if log[|log| - 1].SendEncrypted? then 1 else 0
  }

  /** The counter the i-th message carries. */
  function CountAt(log: seq<Send>, i: nat): uint16
    requires i <= |log|
  {
    EncryptedSends(log[..i]) % COUNT_SPAN
  }

  /** What the receiver makes of one message: itself, or, encrypted, its id and its body
      followed by the padding zeros, with the counter it was sent under. */
  function EventOf(count: uint16, send: Send): Event {
    match send
    case SendPlain(msg) => if IsInternal(msg) then InternalRmi(msg) else PlainRmi(msg)
    case SendEncrypted(msg) => EncryptedRmi(Message(msg.id, msg.body + Zeros(Padding(5 + |msg.body|))), count)
    case SendReliable(payload) => Control(payload)
  }

  function Expected(log: seq<Send>): (events: seq<Event>)
    ensures |events| == |log|
  {
    seq(|log|, i requires 0 <= i < |log| => EventOf(CountAt(log, i), log[i]))
  }

  function FrameOf(keys: Keys, count: uint16, send: Send): Frame
    requires Ready(keys)
  {
    Frame(MARKER_RELIABLE, PayloadOf(keys, count, send))
  }

  function Frames(keys: Keys, log: seq<Send>): (fs: seq<Frame>)
    requires Ready(keys)
    ensures |fs| == |log|
  {
    seq(|log|, i requires 0 <= i < |log| => FrameOf(keys, CountAt(log, i), log[i]))
  }

  function Concat(fs: seq<Frame>): seq<byte> {
    if fs == [] then [] else Encode(fs[0]) + Concat(fs[1..])
  }

  /** All the bytes of all the messages, in lock order. */
  function StreamOf(keys: Keys, log: seq<Send>): seq<byte>
    requires Ready(keys)
  {
    Concat(Frames(keys, log))
  }

  predicate Fits(f: Frame) {
    IsMarker(f.marker) && |f.payload| <= MAX_FRAME_LENGTH
  }

  lemma FrameHandled(keys: Keys, count: uint16, send: Send)
    requires Ready(keys) && Admissible(send)
    ensures Fits(FrameOf(keys, count, send))
    ensures forall n: nat ::
      Handle(keys.server, n, keys.link, FrameOf(keys, count, send)) == Outcome(Success(EventOf(count, send)), keys.link)
  {
    match send {
      case SendPlain(msg) => PlainRoundTrip(msg);
      case SendEncrypted(msg) => EncryptedRoundTrip(keys.server.cipher, keys.link.key, count, msg);
      case SendReliable(_) =>
    }
  }

  lemma {:induction false} ConcatAppend(fs: seq<Frame>, gs: seq<Frame>)
    ensures Concat(fs + gs) == Concat(fs) + Concat(gs)
  {
    hide Encode;
    if fs == [] {
      assert fs + gs == gs;
    } else {
      assert (fs + gs)[1..] == fs[1..] + gs;
      ConcatAppend(fs[1..], gs);
    }
  }

  lemma ConcatOne(f: Frame)
    ensures Concat([f]) == Encode(f)
  {
    assert [f][1..] == [];
  }

  lemma CountAtPrefix(log: seq<Send>, send: Send, i: nat)
    requires i <= |log|
    ensures CountAt(log + [send], i) == CountAt(log, i)
  {
    assert (log + [send])[..i] == log[..i];
  }

  lemma FramesGrow(keys: Keys, log: seq<Send>, send: Send)
    requires Ready(keys)
    ensures Frames(keys, log + [send]) == Frames(keys, log) + [FrameOf(keys, CountAt(log, |log|), send)]
  {
    hide FrameOf, CountAt;
    var log' := log + [send];
    forall i | 0 <= i <= |log| ensures CountAt(log', i) == CountAt(log, i) {
      CountAtPrefix(log, send, i);
    }
  }

  lemma LogGrows(keys: Keys, log: seq<Send>, send: Send)
    requires Ready(keys)
    ensures StreamOf(keys, log + [send]) == StreamOf(keys, log) + Encode(FrameOf(keys, CountAt(log, |log|), send))
  {
    hide FrameOf, Encode, CountAt;
    var f := FrameOf(keys, CountAt(log, |log|), send);
    FramesGrow(keys, log, send);
    ConcatAppend(Frames(keys, log), [f]);
    ConcatOne(f);
  }

  lemma CountGrows(log: seq<Send>, send: Send)
    ensures CountAt(log + [send], |log| + 1) ==
            if send.SendEncrypted? then (CountAt(log, |log|) + 1) % COUNT_SPAN else CountAt(log, |log|)
  {
    var log' := log + [send];
    assert log'[..|log| + 1] == log' && log'[..|log|] == log && log[..|log|] == log;
  }

  // ------------------------------------------- what a cut stream parses to

  /** The parser on any front part of a stream of frames: no error, the frames whose last byte
      is there, and the rest a proper front part of the next one. */
  lemma {:induction false} ParseCut(fs: seq<Frame>, w: seq<byte>) returns (n: nat)
    requires w <= Concat(fs) && forall f | f in fs :: Fits(f)
    ensures n <= |fs| && |Concat(fs[..n])| <= |w|
    ensures Parse(w) == Parsed(fs[..n], w[|Concat(fs[..n])|..], None)
    ensures n < |fs| ==> |w| < |Concat(fs[..n])| + |Encode(fs[n])|
  {
    hide FrontOf, Encode;
    if fs == [] {
      return 0;
    }
    var f := fs[0];
    assert f in fs && Fits(f);
    if |w| < |Encode(f)| {
      assert w == Encode(f)[..|w|];
      PrefixOfEncoded(f, |w|);
      assert fs[..0] == [] && w[0..] == w;
      return 0;
    }
    FrontHere(f, w);
    var rest := w[|Encode(f)|..];
    var m := ParseCut(fs[1..], rest);
    n := m + 1;
    assert fs[..n] == [f] + fs[1..][..m];
    ConcatAppend([f], fs[1..][..m]);
    ConcatOne(f);
    assert w[|Concat(fs[..n])|..] == rest[|Concat(fs[1..][..m])|..];
  }

  lemma FrontHere(f: Frame, w: seq<byte>)
    requires Fits(f) && Encode(f) <= w
    ensures FrontOf(w) == Whole(f, |Encode(f)|)
  {
    hide FrontOf, Encode;
    assert StandsAt(Encode(f), w, 0);
    FrameRoundTrip(f, w);
  }

  lemma {:induction false} HandleFrames(keys: Keys, log: seq<Send>, n: nat)
    requires Ready(keys) && n <= |log| && forall send | send in log :: Admissible(send)
    ensures HandleAll(keys.server, 0, keys.link, Frames(keys, log)[..n]) == Handled(Expected(log)[..n], true, keys.link)
  {
    hide Handle, FrameOf, EventOf, Admissible;
    if n > 0 {
      HandleFrames(keys, log, n - 1);
      var f, e := Frames(keys, log)[n - 1], Expected(log)[n - 1];
      FrameHandled(keys, CountAt(log, n - 1), log[n - 1]);
      assert [f][1..] == [];
      assert HandleAll(keys.server, n - 1, keys.link, [f]) == Handled([e], true, keys.link);
      HandleAppend(keys.server, 0, keys.link, Frames(keys, log)[..n - 1], [f]);
      assert Frames(keys, log)[..n] == Frames(keys, log)[..n - 1] + [f];
      assert Expected(log)[..n] == Expected(log)[..n - 1] + [e];
    }
  }

  lemma {:induction false} ConcatGrows(fs: seq<Frame>, m: nat, n: nat)
    requires m <= n <= |fs|
    ensures |Concat(fs[..n])| >= |Concat(fs[..m])|
    ensures m < n ==> |Concat(fs[..n])| >= |Concat(fs[..m])| + |Encode(fs[m])|
    decreases n - m
  {
    hide Encode;
    if m < n {
      ConcatGrows(fs, m + 1, n);
      assert fs[..m + 1] == fs[..m] + [fs[m]];
      ConcatAppend(fs[..m], [fs[m]]);
      ConcatOne(fs[m]);
    }
  }

  /** The receive loop fed any front part `w` of the stream in one piece. */
  lemma ReceiveCut(keys: Keys, log: seq<Send>, w: seq<byte>)
    requires Ready(keys) && w <= StreamOf(keys, log) && forall send | send in log :: Admissible(send)
    ensures var rx := Receive(keys.server, Fresh(keys.link), w);
            && !rx.closed && rx.events <= Expected(log) && Drained(rx)
            && (forall n | 0 <= n <= |log| ::
                  n <= |rx.events| <==> |Concat(Frames(keys, log)[..n])| <= |w|)
            && (w == StreamOf(keys, log) ==> rx == Receiver([], Expected(log), false, keys.link))
  {
    hide Encode, Parse, HandleAll, FrameOf, EventOf, Handle, Admissible;
    var fs := Frames(keys, log);
    assert forall f | f in fs :: Fits(f) by {
      forall i | 0 <= i < |log| ensures Fits(fs[i]) {
        FrameHandled(keys, CountAt(log, i), log[i]);
      }
    }
    var m := ParseCut(fs, w);
    HandleFrames(keys, log, m);
    assert [] + w == w;
    var rx := Receive(keys.server, Fresh(keys.link), w);
    assert rx.events == [] + Expected(log)[..m] == Expected(log)[..m];
    FreshDrains(keys, w);
    forall n | 0 <= n <= |log| ensures n <= |rx.events| <==> |Concat(fs[..n])| <= |w| {
      if n <= m {
        ConcatGrows(fs, n, m);
      } else {
        ConcatGrows(fs, m, n);
      }
    }
    if w == StreamOf(keys, log) {
      assert fs[..|log|] == fs;
      assert m == |log|;
    }
  }

  lemma FreshDrains(keys: Keys, w: seq<byte>)
    ensures Drained(Receive(keys.server, Fresh(keys.link), w))
  {
    assert Drained(Fresh(keys.link));
    ReceiveDrains(keys.server, Fresh(keys.link), w);
  }

  // ------------------------------------------------------------ the invariant

  /** Bytes the lock holder has still to write. */
  function Unwritten(s: System): seq<byte> {
    if s.lock.Some? && LocalOf(s, s.lock.value).Writing? then LocalOf(s, s.lock.value).rest else []
  }

  predicate SendersOk(keys: Keys, s: System)
    requires Ready(keys)
  {
    && s.encryptCount == CountAt(s.log, |s.log|)
    && (forall send | send in s.log :: Admissible(send))
    && (forall id | id in s.local :: s.local[id].Writing? ==> s.lock == Some(id))
    && (s.lock.Some? ==> LocalOf(s, s.lock.value).Writing?)
    && s.wire <= StreamOf(keys, s.log)
    && (!s.broken ==> s.wire + Unwritten(s) == StreamOf(keys, s.log))
  }

  predicate ReceiverOk(keys: Keys, s: System) {
    s.read <= |s.wire| && s.rx == Receive(keys.server, Fresh(keys.link), s.wire[..s.read])
  }

  lemma StartOk(keys: Keys)
    requires Ready(keys)
    ensures SendersOk(keys, Start(keys)) && ReceiverOk(keys, Start(keys))
  {
    assert Start(keys).wire[..0] == [];
  }

  lemma LockOk(keys: Keys, s: System, id: nat, send: Send, s': System)
    requires Ready(keys) && SendersOk(keys, s) && Next(keys, s, Lock(id, send), s')
    ensures SendersOk(keys, s')
  {
    hide Ready, Admissible, Encode, PayloadOf, StreamOf, CountAt;
    LogGrows(keys, s.log, send);
    CountGrows(s.log, send);
    var frame := Encode(FrameOf(keys, s.encryptCount, send));
    assert Unwritten(s') == frame;
    assert StreamOf(keys, s'.log) == StreamOf(keys, s.log) + frame;
    if !s.broken {
      assert s.wire + [] == s.wire;
    }
  }

  lemma WriterOk(keys: Keys, s: System, a: Act, s': System)
    requires Ready(keys) && SendersOk(keys, s) && Next(keys, s, a, s') && (a.Write? || a.Unlock? || a.Break?)
    ensures SendersOk(keys, s') && s.wire <= s'.wire && s'.read == s.read && s'.rx == s.rx
  {
    hide Ready, StreamOf, CountAt, Admissible;
    assert s.lock == Some(a.sender);
    match a {
      case Write(id, k) =>
        var rest := LocalOf(s, id).rest;
        assert s.wire + rest == (s.wire + rest[..k]) + rest[k..];
      case Unlock(id) =>
        assert s.wire + [] == s.wire;
      case Break(id, k) =>
        var rest := LocalOf(s, id).rest;
        assert s.wire + rest == (s.wire + rest[..k]) + rest[k..];
        if s.broken {
          assert s.wire + rest[..k] == s.wire;
        }
      case _ =>
    }
  }

  lemma ReadOk(keys: Keys, s: System, n: nat, s': System)
    requires Ready(keys) && SendersOk(keys, s) && ReceiverOk(keys, s) && Next(keys, s, Read(n), s')
    ensures ReceiverOk(keys, s')
  {
    hide Parse, HandleAll, StreamOf, CountAt, Expected, Frames, Admissible, Concat;
    var a, b := s.wire[..s.read], s.wire[s.read..s.read + n];
    assert a + b == s.wire[..s.read + n];
    ReceiveCut(keys, s.log, a + b);
    ReceiveChunks(keys.server, Fresh(keys.link), a, b);
  }

  lemma StepOk(keys: Keys, s: System, a: Act, s': System)
    requires Ready(keys) && SendersOk(keys, s) && ReceiverOk(keys, s) && Next(keys, s, a, s')
    ensures SendersOk(keys, s') && ReceiverOk(keys, s')
  {
    hide Ready, Receive, StreamOf, CountAt, Admissible;
    match a {
      case Lock(id, send) =>
        LockOk(keys, s, id, send, s');
      case Read(n) =>
        ReadOk(keys, s, n, s');
      case _ =>
        WriterOk(keys, s, a, s');
        assert s'.wire[..s.read] == s.wire[..s.read];
    }
  }

  /** A run of the whole system from the start. */
  predicate IsRun(keys: Keys, run: seq<System>, acts: seq<Act>)
    requires Ready(keys)
  {
    && |run| == |acts| + 1 && run[0] == Start(keys)
    && forall i | 0 <= i < |acts| :: Next(keys, run[i], acts[i], run[i + 1])
  }

  lemma {:induction false} RunOk(keys: Keys, run: seq<System>, acts: seq<Act>, i: nat)
    requires Ready(keys) && IsRun(keys, run, acts) && i < |run|
    ensures SendersOk(keys, run[i]) && ReceiverOk(keys, run[i])
  {
    if i == 0 {
      StartOk(keys);
    } else {
      RunOk(keys, run, acts, i - 1);
      assert Next(keys, run[i - 1], acts[i - 1], run[i - 1 + 1]);
      StepOk(keys, run[i - 1], acts[i - 1], run[i]);
    }
  }

  /** End to end, at every moment of every interleaving: what has been decoded is a prefix of
      what was sent in lock order, it is exactly the messages whose last byte has arrived, and
      all of them once the writer is done and every byte is in. */
  lemma EndToEnd(keys: Keys, run: seq<System>, acts: seq<Act>, i: nat)
    requires Ready(keys) && IsRun(keys, run, acts) && i < |run|
    ensures var s := run[i];
            && !s.rx.closed
            && s.rx.events <= Expected(s.log)
            && (forall n | 0 <= n <= |s.log| ::
                  n <= |s.rx.events| <==> |Concat(Frames(keys, s.log)[..n])| <= s.read)
            && (s.lock.None? && !s.broken && s.read == |s.wire| ==>
                  s.rx == Receiver([], Expected(s.log), false, keys.link))
  {
    RunOk(keys, run, acts, i);
    var s := run[i];
    var w := s.wire[..s.read];
    ReceiveCut(keys, s.log, w);
    if s.lock.None? && !s.broken && s.read == |s.wire| {
      assert w == s.wire == s.wire + [];
    }
  }

  /** The lock is what makes frames whole: nobody else holds a half-written one. */
  lemma MutualExclusion(keys: Keys, run: seq<System>, acts: seq<Act>, i: nat, a: nat, b: nat)
    requires Ready(keys) && IsRun(keys, run, acts) && i < |run|
    requires LocalOf(run[i], a).Writing? && LocalOf(run[i], b).Writing?
    ensures a == b
  {
    RunOk(keys, run, acts, i);
  }

  /** What one read keeps buffered never exceeds one frame and its header. */
  lemma BufferBounded(keys: Keys, run: seq<System>, acts: seq<Act>, i: nat)
    requires Ready(keys) && IsRun(keys, run, acts) && i < |run|
    ensures |run[i].rx.pending| <= MAX_FRAME_LENGTH + 6
  {
    RunOk(keys, run, acts, i);
    EndToEnd(keys, run, acts, i);
    RemainingBounded([] + run[i].wire[..run[i].read]);
  }

  // ------------------------------------------------ the writer as a sender

  /** Some steps of the system, one after the other. */
  predicate IsTrace(keys: Keys, run: seq<System>, acts: seq<Act>)
    requires Ready(keys)
  {
    && |run| == |acts| + 1
    && forall i | 0 <= i < |acts| :: Next(keys, run[i], acts[i], run[i + 1])
  }

  lemma TraceSnoc(keys: Keys, run: seq<System>, acts: seq<Act>, a: Act, s: System)
    requires Ready(keys) && IsTrace(keys, run, acts) && Next(keys, run[|acts|], a, s)
    ensures |run| == |acts| + 1 && IsTrace(keys, run + [s], acts + [a])
  {
    hide Next;
  }

  /** The system with the sender in the middle of its frame. */
  function Midway(s: System, id: nat, log: seq<Send>, count: uint16, frame: seq<byte>, sent: nat): System
    requires sent <= |frame|
  {
    s.(lock := Some(id), local := s.local[id := Writing(frame[sent..])], log := log, encryptCount := count,
       wire := s.wire + frame[..sent])
  }

  function CountAfter(count: uint16, send: Send): uint16 {
    if send.SendEncrypted? then (count + 1) % COUNT_SPAN else count
  }

  /** The system after the send, with `sent` bytes of its frame out and the lock released. */
  function Sent(s: System, id: nat, log: seq<Send>, count: uint16, frame: seq<byte>, sent: nat, whole: bool): System
    requires sent <= |frame|
  {
    s.(local := s.local[id := Idle], log := log, encryptCount := count, wire := s.wire + frame[..sent],
        broken := !whole)
  }

  lemma LockStep(keys: Keys, s: System, id: nat, send: Send)
    requires Ready(keys) && s.lock.None? && LocalOf(s, id).Idle? && Admissible(send)
    ensures Next(keys, s, Lock(id, send), Midway(s, id, s.log + [send], CountAfter(s.encryptCount, send),
                                                 Encode(FrameOf(keys, s.encryptCount, send)), 0))
  {
    hide Encode, PayloadOf;
    var frame := Encode(FrameOf(keys, s.encryptCount, send));
    assert s.wire + frame[..0] == s.wire && frame[0..] == frame;
  }

  lemma WriteStep(keys: Keys, s: System, id: nat, log: seq<Send>, count: uint16, frame: seq<byte>, sent: nat, k: nat)
    requires Ready(keys) && !s.broken && sent + k <= |frame| && 0 < k
    ensures Next(keys, Midway(s, id, log, count, frame, sent), Write(id, k), Midway(s, id, log, count, frame, sent + k))
  {
    assert frame[sent..][k..] == frame[sent + k..];
    assert s.wire + frame[..sent] + frame[sent..][..k] == s.wire + frame[..sent + k];
  }

  lemma UnlockStep(keys: Keys, s: System, id: nat, log: seq<Send>, count: uint16, frame: seq<byte>)
    requires Ready(keys) && !s.broken && s.lock.None?
    ensures Next(keys, Midway(s, id, log, count, frame, |frame|), Unlock(id),
        Sent(s, id, log, count, frame, |frame|, true))
  {
    assert frame[|frame|..] == [];
  }

  lemma BreakStep(keys: Keys, s: System, id: nat, log: seq<Send>, count: uint16, frame: seq<byte>, sent: nat, k: nat)
    requires Ready(keys) && !s.broken && s.lock.None? && sent + k <= |frame| && sent < |frame|
    ensures Next(keys, Midway(s, id, log, count, frame, sent), Break(id, k),
        Sent(s, id, log, count, frame, sent + k, false))
  {
    assert s.wire + frame[..sent] + frame[sent..][..k] == s.wire + frame[..sent + k];
  }

  lemma {:induction false} WritesTrace(keys: Keys, s: System, id: nat, send: Send, frame: seq<byte>, writes: seq<nat>)
    returns (run: seq<System>, acts: seq<Act>)
    requires Ready(keys) && s.lock.None? && !s.broken && LocalOf(s, id).Idle? && Admissible(send)
    requires frame == Encode(FrameOf(keys, s.encryptCount, send))
    requires Total(writes) <= |frame| && forall i | 0 <= i < |writes| :: writes[i] > 0
    ensures IsTrace(keys, run, acts) && run[0] == s && |acts| == |writes| + 1 && acts[0] == Lock(id, send)
    ensures forall i | 0 <= i < |writes| :: acts[i + 1] == Write(id, writes[i])
    ensures run[|acts|] == Midway(s, id, s.log + [send], CountAfter(s.encryptCount, send), frame, Total(writes))
  {
    hide Next, Midway, Encode, FrameOf, Admissible, LocalOf, CountAfter;
    var log, count := s.log + [send], CountAfter(s.encryptCount, send);
    LockStep(keys, s, id, send);
    if writes == [] {
      acts, run := [Lock(id, send)], [s, Midway(s, id, log, count, frame, 0)];
    } else {
      var n := |writes| - 1;
      run, acts := WritesTrace(keys, s, id, send, frame, writes[..n]);
      WriteStep(keys, s, id, log, count, frame, Total(writes[..n]), writes[n]);
      var t := Midway(s, id, log, count, frame, Total(writes));
      TraceSnoc(keys, run, acts, Write(id, writes[n]), t);
      run, acts := run + [t], acts + [Write(id, writes[n])];
    }
  }

  /** What a send did, as steps: the lock, the writes, and its release; or, when the last write
      failed or took nothing, a break in the place of that write and of the release. */
  predicate Shape(id: nat, send: Send, writes: seq<nat>, complete: bool, acts: seq<Act>) {
    var n := if complete then |writes| else |writes| - 1;
    && n >= 0 && |acts| == n + 2 && acts[0] == Lock(id, send)
    && (forall i | 0 <= i < n :: acts[i + 1] == Write(id, writes[i]))
    && acts[n + 1] == if complete then Unlock(id) else Break(id, writes[n])
  }

  lemma SendTrace(keys: Keys, s: System, id: nat, send: Send, frame: seq<byte>, writes: seq<nat>, complete: bool)
    returns (run: seq<System>, acts: seq<Act>)
    requires Ready(keys) && s.lock.None? && !s.broken && LocalOf(s, id).Idle? && Admissible(send)
    requires frame == Encode(FrameOf(keys, s.encryptCount, send)) && WritesOf(|frame|, writes, complete)
    ensures IsTrace(keys, run, acts) && run[0] == s && Shape(id, send, writes, complete, acts)
        && Total(writes) <= |frame|
    ensures run[|acts|]
         == Sent(s, id, s.log + [send], CountAfter(s.encryptCount, send), frame, Total(writes), complete)
  {
    hide Next, Midway, Sent, Encode, FrameOf, Admissible, LocalOf, CountAfter, IsTrace;
    var log, count := s.log + [send], CountAfter(s.encryptCount, send);
    var before := if complete then writes else writes[..|writes| - 1];
    run, acts := WritesTrace(keys, s, id, send, frame, before);
    var a := if complete then Unlock(id) else Break(id, writes[|writes| - 1]);
    if complete {
      UnlockStep(keys, s, id, log, count, frame);
    } else {
      BreakStep(keys, s, id, log, count, frame, Total(before), writes[|writes| - 1]);
    }
    var t := Sent(s, id, log, count, frame, Total(writes), complete);
    TraceSnoc(keys, run, acts, a, t);
    run, acts := run + [t], acts + [a];
  }

  /** The session is the sending half of the system. */
  ghost predicate Agrees(session: Session, keys: Keys, s: System)
    reads session, session.conn
  {
    && session.cipher == keys.server.cipher && session.sessionKey == keys.link.key
    && session.encryptCount == s.encryptCount && session.conn.wire == s.wire
  }

  /** Every send of the session is a sender's steps, and leaves session and system agreeing. */
  method Transmit(session: Session, send: Send, ghost keys: Keys, ghost s: System, ghost id: nat)
    returns (error: Option<SendError>, ghost run: seq<System>, ghost acts: seq<Act>)
    requires Ready(keys) && Agrees(session, keys, s)
    requires s.lock.None? && !s.broken && LocalOf(s, id).Idle? && Admissible(send)
    modifies session`encryptCount, session.conn
    ensures IsTrace(keys, run, acts) && run[0] == s && Agrees(session, keys, run[|acts|])
    ensures exists writes :: Shape(id, send, writes, error.None?, acts)
    ensures var t := run[|acts|]; t.lock.None? && t.log == s.log + [send] && t.broken == error.Some?
  {
    hide Encode, Next, IsTrace, Admissible, LocalOf, EncodePlain, EncodeEncrypted, WritesOf, Shape;
    ghost var writes;
    match send {
      case SendPlain(msg) => error, writes := session.SendPlain(msg);
      case SendEncrypted(msg) =>
        EncryptedRoundTrip(keys.server.cipher, keys.link.key, s.encryptCount, msg);
        error, writes := session.SendEncrypted(msg);
      case SendReliable(payload) => error, writes := session.SendReliable(payload);
    }
    run, acts := SendTrace(keys, s, id, send, Encode(FrameOf(keys, s.encryptCount, send)), writes, error.None?);
  }
}
