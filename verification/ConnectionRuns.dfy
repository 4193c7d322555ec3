/** What holds over every run of the connection manager. */
module ConnectionRuns {
  import opened Bytes
  import opened Streams
  import opened MethodStreams
  import opened Framing
  import opened WritePump
  import opened Connection
  import opened MethodCodec
  import opened WireBytes

  // ---- reading ----

  /** The bytes of the current frame received so far. */
  ghost predicate Partial(reading: Reading, tail: bytes) {
    match reading
    case AwaitHeader => tail == []
    case AwaitBody(head) => |tail| == 8 && ParseHead(tail) == Some(head) && head.size > 0
    case Idle => ParseAll(tail) == []
  }

  /** Received bytes are the dispatched frames and a rest that holds no complete frame. */
  ghost predicate ReadsInStep(c: Conn, tail: bytes) {
    && (forall f <- c.dispatched :: Sendable(f))
    && c.received == PrintAll(c.dispatched) + tail
    && Partial(c.reading, tail)
    && (c.reading == Idle ==> c.status != Running || !c.pump.open)
  }

  ghost predicate Reads(c: Conn) {
    exists tail: bytes :: ReadsInStep(c, tail)
  }

  lemma PartialHasNoFrame(reading: Reading, tail: bytes)
    requires Partial(reading, tail)
    ensures ParseAll(tail) == []
  {
    if reading.AwaitBody? {
      assert tail[..8] == tail;
    }
  }

  /** The frames dispatched are exactly the complete frames in the bytes received. */
  lemma DispatchedAreParsed(c: Conn)
    requires Reads(c)
    ensures c.dispatched == ParseAll(c.received)
  {
    var tail :| ReadsInStep(c, tail);
    PartialHasNoFrame(c.reading, tail);
    ParseAllAfterPrint(c.dispatched, tail);
    assert c.dispatched + [] == c.dispatched;
  }

  lemma HandleDeadKeeps(spec: Schema, c: Conn, f: Frame)
    requires HasChannelMethods(spec)
    ensures var d := HandleDead(spec, c, f);
            && d.received == c.received && d.dispatched == c.dispatched && d.delivered == c.delivered
            && d.reading == c.reading && d.pump.open == c.pump.open && d.slots == c.slots
            && d.dead == c.dead + [f] && d.closeCalls == c.closeCalls
  {
    hide DecodeMethod, CloseOkFrame;
  }

  lemma DispatchKeeps(spec: Schema, c: Conn, f: Frame, o: Outcome)
    requires HasChannelMethods(spec)
    ensures var d := Dispatch(spec, c, f, o);
            && d.received == c.received && d.dispatched == c.dispatched + [f]
            && d.reading == c.reading && d.pump.open == c.pump.open
            && d.slots == c.slots && d.closeCalls == c.closeCalls
  {
    HandleDeadKeeps(spec, c.(dispatched := c.dispatched + [f]), f);
    hide HandleDead;
  }

  /** A complete frame moves from the rest to the dispatched ones. */
  lemma FrameReceived(spec: Schema, c: Conn, f: Frame, o: Outcome, before: bytes)
    requires HasChannelMethods(spec) && Sendable(f)
    requires (forall g <- c.dispatched :: Sendable(g)) && c.received == PrintAll(c.dispatched) + PrintFrame(f)
    ensures Reads(TakeFrame(spec, c, f, o))
  {
    var d := TakeFrame(spec, c, f, o);
    DispatchKeeps(spec, c.(reading := Idle), f, o);
    PrintOneMore(c.dispatched, f);
    assert d.received == PrintAll(d.dispatched) + [];
    assert ReadsInStep(d, []);
  }

  lemma HeaderReads(spec: Schema, c: Conn, bs: bytes, o: Outcome)
    requires HasChannelMethods(spec) && Reads(c) && c.reading == AwaitHeader && |bs| == 8
    ensures Reads(OnHeader(spec, c, bs, o))
  {
    var tail :| ReadsInStep(c, tail);
    var d := OnHeader(spec, c, bs, o);
    assert c.received + bs == PrintAll(c.dispatched) + bs;
    assert bs[..8] == bs;
    match ParseHead(bs) {
      case None =>
        assert ParseFrame(bs) == Err;
        assert ReadsInStep(d, bs);
      case Some(head) =>
        if head.size > 0 {
          assert ReadsInStep(d, bs);
        } else {
          var f := Frame(head.ftype, head.channel, []);
          assert ParseFrame(bs) == Ok(f, []);
          ParseFrameIff(bs, f, []);
          assert PrintFrame(f) + [] == PrintFrame(f);
          FrameReceived(spec, c.(received := c.received + bs), f, o, tail);
        }
    }
  }

  lemma BodyReads(spec: Schema, c: Conn, bs: bytes, o: Outcome)
    requires HasChannelMethods(spec) && Reads(c) && c.reading.AwaitBody? && c.reading.head.size == |bs| > 0
    ensures Reads(OnBody(spec, c, bs, o))
  {
    var tail :| ReadsInStep(c, tail);
    var whole := tail + bs;
    assert c.received + bs == PrintAll(c.dispatched) + whole;
    assert whole[..8] == tail && whole[8..] == bs;
    match ParseBody(c.reading.head, bs) {
      case Err =>
        assert ParseFrame(whole) == Err;
        assert ReadsInStep(OnBody(spec, c, bs, o), whole);
      case Ok(f, rest) =>
        assert rest == [];
        ParseFrameIff(whole, f, []);
        assert PrintFrame(f) + [] == PrintFrame(f);
        FrameReceived(spec, c.(received := c.received + bs), f, o, tail);
    }
  }

  lemma ReadsStep(spec: Schema, c: Conn, e: Event)
    requires HasChannelMethods(spec) && Possible(c, e) && Reads(c)
    ensures Reads(Next(spec, c, e))
  {
    match e {
      case HeaderRead(bs, o) => HeaderReads(spec, c, bs, o);
      case BodyRead(bs, o) => BodyReads(spec, c, bs, o);
      case _ =>
        var tail :| ReadsInStep(c, tail);
        PartialHasNoFrame(c.reading, tail);
        assert ReadsInStep(Next(spec, c, e), tail);
    }
  }

  /**
   * Over every run the frames dispatched are the complete frames of the bytes received, and exactly one read is
   * outstanding (a header, or the body its header announced) until the socket fails or an exception escapes.
   */
  lemma {:induction false} ReadLoopRefinesParse(spec: Schema, c: Conn, es: seq<Event>)
    requires HasChannelMethods(spec) && IsRun(spec, c, es) && Reads(c)
    ensures var d := After(spec, c, es);
            Reads(d) && d.dispatched == ParseAll(d.received)
            && (d.status == Running && d.pump.open ==> d.reading != Idle)
    decreases |es|
  {
    if es == [] {
      DispatchedAreParsed(c);
      var tail :| ReadsInStep(c, tail);
    } else {
      ReadsStep(spec, c, es[0]);
      ReadLoopRefinesParse(spec, Next(spec, c, es[0]), es[1..]);
    }
  }

  lemma StartedReads(g: Guard)
    ensures Reads(Started(g))
  {
    assert [] + [] == Started(g).received;
    assert ReadsInStep(Started(g), []);
  }

  // ---- channels ----

  /** Slot i holds the handler with id i, and what was delivered went to the handler of the frame's channel. */
  ghost predicate Routed(c: Conn) {
    && 0 < |c.slots| <= 65536
    && (forall i :: 0 <= i < |c.slots| ==> c.slots[i].id == i)
    && c.slots[0].alive
    && (forall d <- c.delivered :: d.id == d.f.channel)
  }

  /** Slots are only ever appended: their handlers keep their ids and dead ones stay dead. */
  ghost predicate Grew(c: Conn, d: Conn) {
    && |c.slots| <= |d.slots|
    && forall i :: 0 <= i < |c.slots| ==>
         d.slots[i].id == c.slots[i].id && (d.slots[i].alive ==> c.slots[i].alive)
         && (c.slots[i].closed ==> d.slots[i].closed)
  }

  lemma {:induction false} CloseKeepsSlots(slots: seq<Slot>, i: nat)
    requires i <= |slots|
    ensures var r := CloseFrom(slots, i).0;
            forall k :: 0 <= k < |slots| ==>
              r[k].id == slots[k].id && r[k].alive == slots[k].alive && (slots[k].closed ==> r[k].closed)
    decreases |slots| - i
  {
    if i < |slots| {
      if !slots[i].alive {
        CloseKeepsSlots(slots, i + 1);
      } else if !slots[i].closed {
        CloseKeepsSlots(slots[i := slots[i].(closed := true)], i + 1);
      }
    }
  }

  lemma TakeFrameRoutes(spec: Schema, c: Conn, f: Frame, o: Outcome)
    requires HasChannelMethods(spec) && Routed(c)
    ensures Routed(TakeFrame(spec, c, f, o)) && Grew(c, TakeFrame(spec, c, f, o))
  {
    DispatchKeeps(spec, c.(reading := Idle), f, o);
    HandleDeadKeeps(spec, c.(reading := Idle, dispatched := c.dispatched + [f]), f);
    hide HandleDead;
    var d := TakeFrame(spec, c, f, o);
    forall x | x in d.delivered ensures x.id == x.f.channel {
      if x !in c.delivered {
        assert x == Delivery(c.slots[f.channel].id, f);
      }
    }
  }

  lemma RoutedStep(spec: Schema, c: Conn, e: Event)
    requires HasChannelMethods(spec) && Possible(c, e) && Routed(c)
    ensures Routed(Next(spec, c, e)) && Grew(c, Next(spec, c, e))
  {
    hide TakeFrame, ParseHead, ParseBody, CloseFrom, BeginWrite, WriteDone, WriteFailed, OpenFrame;
    match e {
      case HeaderRead(bs, o) =>
        if ParseHead(bs).Some? {
          var head := ParseHead(bs).value;
          TakeFrameRoutes(spec, c.(received := c.received + bs), Frame(head.ftype, head.channel, []), o);
        }
      case BodyRead(bs, o) =>
        if ParseBody(c.reading.head, bs).Ok? {
          TakeFrameRoutes(spec, c.(received := c.received + bs), ParseBody(c.reading.head, bs).value, o);
        }
      case ReadError => CloseKeepsSlots(c.slots, 1);
      case WriteError(k) => CloseKeepsSlots(c.slots, 1);
      case _ =>
    }
  }

  /** Over every run slots keep their handlers, at most 65536 exist, and no handler sees a frame of another channel. */
  lemma {:induction false} RoutingIsSafe(spec: Schema, c: Conn, es: seq<Event>)
    requires HasChannelMethods(spec) && IsRun(spec, c, es) && Routed(c)
    ensures Routed(After(spec, c, es)) && Grew(c, After(spec, c, es))
    decreases |es|
  {
    if es != [] {
      RoutedStep(spec, c, es[0]);
      RoutingIsSafe(spec, Next(spec, c, es[0]), es[1..]);
    }
  }

  /**
   * Indexing past the vector happens exactly for a frame of a channel not yet opened that the dead-frame handler
   * lets pass.
   */
  lemma OutOfRangeIff(spec: Schema, c: Conn, f: Frame, o: Outcome)
    requires HasChannelMethods(spec) && c.status == Running
    ensures Dispatch(spec, c, f, o).status == OutOfRange
       <==> f.channel >= |c.slots| && (f.ftype == MethodFrame ==> DecodeMethod(spec, f.payload).Ok?)
  {
  }

  /** A frame that makes the dispatcher index past n slots. */
  predicate Strays(spec: Schema, n: nat, f: Frame)
    requires HasChannelMethods(spec)
  {
    f.channel >= n && (f.ftype == MethodFrame ==> DecodeMethod(spec, f.payload).Ok?)
  }

  /** All frames dispatched but the last were in range; the last one was too, unless it has stopped the thread. */
  ghost predicate InRange(spec: Schema, c: Conn)
    requires HasChannelMethods(spec)
  {
    && (forall i :: 0 <= i < |c.dispatched| - 1 ==> c.dispatched[i].channel < |c.slots|)
    && (c.status == Running && c.dispatched != [] ==> c.dispatched[|c.dispatched| - 1].channel < |c.slots|)
    && (c.status == OutOfRange
        <==> c.dispatched != [] && Strays(spec, |c.slots|, c.dispatched[|c.dispatched| - 1]))
  }

  lemma TakeFrameInRange(spec: Schema, c: Conn, f: Frame, o: Outcome)
    requires HasChannelMethods(spec) && c.status == Running && InRange(spec, c)
    ensures InRange(spec, TakeFrame(spec, c, f, o))
  {
    var d := c.(reading := Idle);
    DispatchKeeps(spec, d, f, o);
    OutOfRangeIff(spec, d, f, o);
    RunningIff(spec, d, f, o);
    hide Dispatch, DecodeMethod;
    var e := TakeFrame(spec, c, f, o);
    forall i | 0 <= i < |e.dispatched| - 1 ensures e.dispatched[i].channel < |e.slots| {
      assert e.dispatched[i] == c.dispatched[i];
    }
  }

  lemma RunningIff(spec: Schema, c: Conn, f: Frame, o: Outcome)
    requires HasChannelMethods(spec) && c.status == Running
    ensures Dispatch(spec, c, f, o).status == Running ==> f.channel < |c.slots|
  {
    hide DecodeMethod;
  }

  lemma InRangeStep(spec: Schema, c: Conn, e: Event)
    requires HasChannelMethods(spec) && Possible(c, e) && InRange(spec, c)
    ensures InRange(spec, Next(spec, c, e))
  {
    hide TakeFrame, DecodeMethod, ParseHead, ParseBody, CloseFrom, BeginWrite, WriteDone, WriteFailed, OpenFrame;
    match e {
      case HeaderRead(bs, o) =>
        if ParseHead(bs).Some? {
          var head := ParseHead(bs).value;
          TakeFrameInRange(spec, c.(received := c.received + bs), Frame(head.ftype, head.channel, []), o);
        }
      case BodyRead(bs, o) =>
        if ParseBody(c.reading.head, bs).Ok? {
          TakeFrameInRange(spec, c.(received := c.received + bs), ParseBody(c.reading.head, bs).value, o);
        }
      case _ =>
    }
  }

  lemma {:induction false} RunsInRange(spec: Schema, c: Conn, es: seq<Event>)
    requires HasChannelMethods(spec) && IsRun(spec, c, es) && InRange(spec, c)
    ensures InRange(spec, After(spec, c, es))
    decreases |es|
  {
    if es != [] {
      InRangeStep(spec, c, es[0]);
      RunsInRange(spec, Next(spec, c, es[0]), es[1..]);
    }
  }

  /**
   * Over every run the thread indexes past the channel vector if and only if the last complete frame of the bytes
   * received is for a channel that was never opened, and is not a method frame that fails to decode.
   */
  lemma OutOfRangeRuns(spec: Schema, g: Guard, es: seq<Event>)
    requires HasChannelMethods(spec) && IsRun(spec, Started(g), es)
    ensures var d := After(spec, Started(g), es);
            var fs := ParseAll(d.received);
            && (d.status == OutOfRange <==> fs != [] && Strays(spec, |d.slots|, fs[|fs| - 1]))
            && (forall i :: 0 <= i < |fs| - 1 ==> fs[i].channel < |d.slots|)
  {
    StartedReads(g);
    ReadLoopRefinesParse(spec, Started(g), es);
    RunsInRange(spec, Started(g), es);
  }

  /** In every state that waits for a header, a heartbeat on any channel not yet opened does it. */
  lemma HeartbeatStrays(spec: Schema, c: Conn, channel: uint16, o: Outcome)
    requires HasChannelMethods(spec) && c.status == Running && 0 < |c.slots| <= channel && c.reading == AwaitHeader
    ensures var e := HeaderRead(PrintFrame(Frame(HeartbeatFrame, channel, [])), o);
            Possible(c, e) && Next(spec, c, e).status == OutOfRange
  {
    var f := Frame(HeartbeatFrame, channel, []);
    var bs := PrintFrame(f);
    assert |bs| == 8 && bs[..8] == bs && bs + [] == bs;
    ParseFrameIff(bs, f, []);
    assert ParseFrame(bs) == Ok(f, []);
    assert ParseHead(bs).Some? && ParseHead(bs).value.size == 0;
  }

  lemma HeartbeatBytes()
    ensures PrintFrame(Frame(HeartbeatFrame, 1, [])) == [8, 0, 1, 0, 0, 0, 0, 206]
  {
    assert BE(1, 2) == [0, 1] by {
      assert BE(1, 1) == [1] && BE(0, 1) == [0];
    }
    assert BE(0, 4) == [0, 0, 0, 0] by {
      assert BE(0, 2) == [0, 0] && BE(0, 3) == [0, 0, 0];
    }
  }

  /** Eight bytes after the start are enough. */
  lemma OutOfRangeReachable(spec: Schema, g: Guard)
    requires HasChannelMethods(spec)
    ensures var es := [HeaderRead([8, 0, 1, 0, 0, 0, 0, 206], Returned)];
            IsRun(spec, Started(g), es) && After(spec, Started(g), es).status == OutOfRange
  {
    hide Possible, Next, PrintFrame;
    var e := HeaderRead([8, 0, 1, 0, 0, 0, 0, 206], Returned);
    HeartbeatBytes();
    HeartbeatStrays(spec, Started(g), 1, Returned);
    assert [e][1..] == [];
    var d := Next(spec, Started(g), e);
    assert IsRun(spec, d, []) && After(spec, d, []) == d;
  }

  function FramesIn(ds: seq<Delivery>): seq<Frame> {
    seq(|ds|, i requires 0 <= i < |ds| => ds[i].f)
  }

  /** Every dispatched frame was given to a handler or treated as dead: once, and not both. */
  ghost predicate Disposed(c: Conn) {
    multiset(c.dispatched) == multiset(FramesIn(c.delivered)) + multiset(c.dead)
  }

  lemma DeliverOneMore(ds: seq<Delivery>, x: Delivery)
    ensures FramesIn(ds + [x]) == FramesIn(ds) + [x.f]
  {
  }

  lemma DispatchDisposes(spec: Schema, c: Conn, f: Frame, o: Outcome)
    requires HasChannelMethods(spec) && Disposed(c)
    ensures Disposed(Dispatch(spec, c, f, o))
  {
    hide HandleDead, FramesIn;
    var d := c.(dispatched := c.dispatched + [f]);
    if f.channel < |c.slots| && c.slots[f.channel].alive {
      DeliverOneMore(c.delivered, Delivery(c.slots[f.channel].id, f));
    } else {
      HandleDeadKeeps(spec, d, f);
    }
  }

  lemma DisposedStep(spec: Schema, c: Conn, e: Event)
    requires HasChannelMethods(spec) && Possible(c, e) && Disposed(c)
    ensures Disposed(Next(spec, c, e))
  {
    hide Dispatch, ParseHead, ParseBody, CloseFrom, BeginWrite, WriteDone, WriteFailed, OpenFrame, FramesIn;
    match e {
      case HeaderRead(bs, o) =>
        if ParseHead(bs).Some? {
          var head := ParseHead(bs).value;
          var d := c.(received := c.received + bs, reading := Idle);
          assert Disposed(d);
          DispatchDisposes(spec, d, Frame(head.ftype, head.channel, []), o);
        }
      case BodyRead(bs, o) =>
        if ParseBody(c.reading.head, bs).Ok? {
          var d := c.(received := c.received + bs, reading := Idle);
          assert Disposed(d);
          DispatchDisposes(spec, d, ParseBody(c.reading.head, bs).value, o);
        }
      case _ =>
    }
  }

  /** Over every run no frame is lost or handled twice. */
  lemma {:induction false} NoFrameIsLost(spec: Schema, c: Conn, es: seq<Event>)
    requires HasChannelMethods(spec) && IsRun(spec, c, es) && Disposed(c)
    ensures Disposed(After(spec, c, es))
    decreases |es|
  {
    if es != [] {
      DisposedStep(spec, c, es[0]);
      NoFrameIsLost(spec, Next(spec, c, es[0]), es[1..]);
    }
  }

  // ---- dead channels ----

  /** A channel.close: class 20, method 40. */
  predicate ClosesChannel(spec: Schema, f: Frame)
    requires HasChannelMethods(spec)
  {
    && f.ftype == MethodFrame && DecodeMethod(spec, f.payload).Ok?
    && DecodeMethod(spec, f.payload).value.classId == 20 && DecodeMethod(spec, f.payload).value.methodId == 40
  }

  /** The frames of channel.open with its one empty string, and of channel.close-ok. */
  function OpenOn(channel: uint16): Frame {
    Frame(MethodFrame, channel, [0, 20, 0, 10, 0])
  }

  function CloseOkOn(channel: uint16): Frame {
    Frame(MethodFrame, channel, [0, 20, 0, 41])
  }

  /** Those are the frames the manager builds. */
  lemma ChannelFrames(spec: Schema, channel: uint16)
    requires HasChannelMethods(spec)
    ensures OpenFrame(spec, channel) == OpenOn(channel) && CloseOkFrame(spec, channel) == CloseOkOn(channel)
  {
    MethodBytes(spec, OPEN_METHOD);
    MethodBytes(spec, CLOSE_OK_METHOD);
    EmptyStringArg(Domains(spec, OPEN_METHOD), OPEN_METHOD.args, 0);
    assert EncodeFrom(Domains(spec, CLOSE_OK_METHOD), CLOSE_OK_METHOD.args, 0) == [];
    hide EncodeMethod, EncodeFrom;
  }

  lemma EmptyStringArg(ds: seq<Domain>, args: seq<Arg>, i: nat)
    requires Typed(ds, args) && RunsFit(ds) && i + 1 == |ds| && ds[i] == ShortStr && args[i] == Str([])
    ensures EncodeFrom(ds, args, i) == [0]
  {
    assert EncodeFrom(ds, args, i + 1) == [];
    ArgBytes(ShortStr, args[i]);
  }

  /** The close-ok owed for a frame on a dead slot. */
  function OwedFor(spec: Schema, f: Frame): seq<Frame>
    requires HasChannelMethods(spec)
  {
    if ClosesChannel(spec, f) then [CloseOkOn(f.channel)] else []
  }

  function Owed(spec: Schema, fs: seq<Frame>): seq<Frame>
    requires HasChannelMethods(spec)
  {
    if fs == [] then [] else OwedFor(spec, fs[0]) + Owed(spec, fs[1..])
  }

  lemma HandleDeadPays(spec: Schema, c: Conn, f: Frame)
    requires HasChannelMethods(spec)
    ensures var d := HandleDead(spec, c, f);
            && d.dead == c.dead + [f]
            && d.pump.accepted == c.pump.accepted + (if c.pump.open then OwedFor(spec, f) else [])
  {
    ChannelFrames(spec, f.channel);
    hide CloseOkFrame, DecodeMethod;
    assert c.pump.accepted + [] == c.pump.accepted;
  }

  predicate HasHandler(c: Conn, f: Frame) { f.channel < |c.slots| && c.slots[f.channel].alive }

  /** A frame counts as dead, and is answered, exactly when its slot does not exist or its handler is gone. */
  lemma DispatchPays(spec: Schema, c: Conn, f: Frame, o: Outcome)
    requires HasChannelMethods(spec)
    ensures var d := Dispatch(spec, c, f, o);
            && d.dead == (if HasHandler(c, f) then c.dead else c.dead + [f])
            && d.pump.accepted
               == c.pump.accepted + (if c.pump.open && !HasHandler(c, f) then OwedFor(spec, f) else [])
  {
    assert c.pump.accepted + [] == c.pump.accepted;
    if !HasHandler(c, f) {
      HandleDeadPays(spec, c.(dispatched := c.dispatched + [f]), f);
    }
    hide HandleDead, OwedFor;
  }

  /** Any other decodable frame for a dead slot is dropped: only the histories of frames record it. */
  lemma OtherDeadFramesAreDropped(spec: Schema, c: Conn, f: Frame, o: Outcome)
    requires HasChannelMethods(spec) && f.channel < |c.slots| && !c.slots[f.channel].alive
    requires f.ftype == MethodFrame ==> DecodeMethod(spec, f.payload).Ok?
    ensures !ClosesChannel(spec, f)
       ==> Dispatch(spec, c, f, o) == c.(dispatched := c.dispatched + [f], dead := c.dead + [f])
  {
  }

  // ---- the write side once closed ----

  /** From p to q the pump has stayed eager, and idle if it was closed. */
  ghost predicate StaysEager(p: Pump, q: Pump) {
    Eager(q) && (!p.open ==> !q.open && q.started == p.started && q.accepted == p.accepted)
  }

  lemma TakeFrameEager(spec: Schema, c: Conn, f: Frame, o: Outcome)
    requires HasChannelMethods(spec) && Eager(c.pump)
    ensures StaysEager(c.pump, TakeFrame(spec, c, f, o).pump)
  {
    hide DecodeMethod, CloseOkFrame, FrameHeader;
  }

  lemma EagerStep(spec: Schema, c: Conn, e: Event)
    requires HasChannelMethods(spec) && Possible(c, e) && Eager(c.pump)
    ensures StaysEager(c.pump, Next(spec, c, e).pump)
  {
    hide TakeFrame, ParseHead, ParseBody, CloseFrom, OpenFrame, FrameHeader;
    match e {
      case HeaderRead(bs, o) =>
        if ParseHead(bs).Some? {
          var head := ParseHead(bs).value;
          TakeFrameEager(spec, c.(received := c.received + bs), Frame(head.ftype, head.channel, []), o);
        }
      case BodyRead(bs, o) =>
        if ParseBody(c.reading.head, bs).Ok? {
          TakeFrameEager(spec, c.(received := c.received + bs), ParseBody(c.reading.head, bs).value, o);
        }
      case _ =>
    }
  }

  /**
   * Once closed, no run reopens the connection, accepts a frame or starts a write; open or not, the queue stays
   * empty.
   */
  lemma {:induction false} ClosedIsAbsorbing(spec: Schema, c: Conn, es: seq<Event>)
    requires HasChannelMethods(spec) && IsRun(spec, c, es) && Eager(c.pump)
    ensures Eager(After(spec, c, es).pump)
    ensures !c.pump.open ==> var q := After(spec, c, es).pump;
              !q.open && q.started == c.pump.started && q.accepted == c.pump.accepted
    decreases |es|
  {
    if es != [] {
      EagerStep(spec, c, es[0]);
      ClosedIsAbsorbing(spec, Next(spec, c, es[0]), es[1..]);
    }
  }
}
