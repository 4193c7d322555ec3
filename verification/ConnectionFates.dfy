/** How runs of the connection manager end, which of them there are, and what a channel.close brings about. */
module ConnectionFates {
  import opened Bytes
  import opened Streams
  import opened MethodStreams
  import opened Framing
  import opened EndToEnd
  import opened WritePump
  import opened Connection
  import opened ConnectionRuns
  import opened ConnectionWrites
  import ConnectionClosing
  import ConnectionManager

  // ---- how an event ends ----

  predicate Undecodable(spec: Schema, f: Frame)
    requires HasChannelMethods(spec)
  {
    f.ftype == MethodFrame && DecodeMethod(spec, f.payload).Err?
  }

  /** A frame for a live handler ends as the handler does; any other as the decoding of a method, or out of range. */
  function FrameFate(spec: Schema, c: Conn, f: Frame, o: Outcome): Status
    requires HasChannelMethods(spec)
  {
    if f.channel < |c.slots| && c.slots[f.channel].alive then
      match o
      case Returned => Running
      case ConnectionException => Running
      case OtherException => Uncaught
    else if Undecodable(spec, f) then Uncaught
    else if f.channel < |c.slots| then Running
    else OutOfRange
  }

  /** The thread goes on, and asks for the next header, exactly when nothing but a connection_exception is thrown. */
  lemma DispatchFate(spec: Schema, c: Conn, f: Frame, o: Outcome)
    requires HasChannelMethods(spec) && c.status == Running
    ensures Dispatch(spec, c, f, o).status == TakeFrame(spec, c, f, o).status == FrameFate(spec, c, f, o)
    ensures TakeFrame(spec, c, f, o).reading == if FrameFate(spec, c, f, o) == Running then AwaitHeader else Idle
  {
    DispatchKeeps(spec, c.(reading := Idle), f, o);
    HandleDeadStatus(spec, c.(dispatched := c.dispatched + [f]), f);
    HandleDeadStatus(spec, c.(reading := Idle, dispatched := c.dispatched + [f]), f);
    hide HandleDead;
  }

  lemma HandleDeadStatus(spec: Schema, c: Conn, f: Frame)
    requires HasChannelMethods(spec) && c.status == Running
    ensures HandleDead(spec, c, f).status == if Undecodable(spec, f) then Uncaught else Running
  {
    hide DecodeMethod, CloseOkFrame, BeginWrite;
  }

  /** Eight bytes that begin a frame: a known type, and the end octet last if the size is zero. */
  predicate GoodHeader(bs: bytes)
    requires |bs| == 8
  {
    bs[0] in {1, 2, 3, 8} && (bs[3..7] == [0, 0, 0, 0] ==> bs[7] == 206)
  }

  lemma {:induction false} ZeroIff(bs: bytes)
    ensures FromBE(bs) == 0 <==> forall i :: 0 <= i < |bs| ==> bs[i] == 0
  {
    if bs != [] {
      ZeroIff(bs[..|bs| - 1]);
    }
  }

  lemma GoodHeaderIff(bs: bytes)
    requires |bs| == 8
    ensures ParseHead(bs).Some? <==> GoodHeader(bs)
  {
    ZeroIff(bs[3..7]);
    assert FromBE(bs[3..7]) == 0 <==> bs[3..7] == [0, 0, 0, 0];
    hide FromBE;
  }

  /** How the thread stands after an event. */
  function Fate(spec: Schema, c: Conn, e: Event): Status
    requires HasChannelMethods(spec) && Possible(c, e)
  {
    match e
    case HeaderRead(bs, o) => if GoodHeader(bs) then ReadFate(spec, c, e, o) else Uncaught
    case BodyRead(bs, o) => if bs[|bs| - 1] == 206 then ReadFate(spec, c, e, o) else Uncaught
    case ReadError => ErrorFate(c)
    case WriteError(_) => ErrorFate(c)
    case _ => Running
  }

  /** A read that completes a frame ends as the frame does. */
  function ReadFate(spec: Schema, c: Conn, e: Event, o: Outcome): Status
    requires HasChannelMethods(spec) && Possible(c, e)
  {
    match CompletedBy(c, e)
    case None => Running
    case Some(f) => FrameFate(spec, c, f, o)
  }

  /** A socket error throws when some live handler is closed already. */
  function ErrorFate(c: Conn): Status {
    if exists k :: 0 < k < |c.slots| && c.slots[k].alive && c.slots[k].closed then Uncaught else Running
  }

  lemma CloseFate(c: Conn)
    requires |c.slots| > 0 && c.status == Running
    ensures OnClose(c).status == ErrorFate(c)
  {
    ConnectionClosing.ClosePass(c.slots, 1);
    hide CloseFrom;
  }

  lemma NextFate(spec: Schema, c: Conn, e: Event)
    requires HasChannelMethods(spec) && Possible(c, e)
    ensures Next(spec, c, e).status == Fate(spec, c, e)
  {
    hide TakeFrame, OnClose, ErrorFate, FrameFate, ParseHead, GoodHeader, BeginWrite, WriteDone, OpenFrame;
    match e {
      case HeaderRead(bs, o) =>
        GoodHeaderIff(bs);
        if ParseHead(bs).Some? {
          var head := ParseHead(bs).value;
          var d, f := c.(received := c.received + bs), Frame(head.ftype, head.channel, []);
          DispatchFate(spec, d, f, o);
          SameFate(spec, c, d.received, f, o);
        }
      case BodyRead(bs, o) =>
        if ParseBody(c.reading.head, bs).Ok? {
          var d, f := c.(received := c.received + bs), ParseBody(c.reading.head, bs).value;
          DispatchFate(spec, d, f, o);
          SameFate(spec, c, d.received, f, o);
        }
      case ReadError =>
        CloseFate(c.(reading := Idle));
        SameErrorFate(c, c.(reading := Idle));
      case WriteError(k) =>
        CloseFate(c.(pump := WriteFailed(c.pump, k)));
        SameErrorFate(c, c.(pump := WriteFailed(c.pump, k)));
      case _ =>
    }
  }

  lemma SameFate(spec: Schema, c: Conn, received: bytes, f: Frame, o: Outcome)
    requires HasChannelMethods(spec)
    ensures FrameFate(spec, c.(received := received), f, o) == FrameFate(spec, c, f, o)
  {
  }

  lemma SameErrorFate(c: Conn, d: Conn)
    requires c.slots == d.slots
    ensures ErrorFate(c) == ErrorFate(d)
  {
  }

  /** The read outstanding after an event: completed reads go on to the next one, a failed one does not. */
  function ReadingFate(spec: Schema, c: Conn, e: Event): Reading
    requires HasChannelMethods(spec) && Possible(c, e)
  {
    match e
    case HeaderRead(bs, _) =>
      if !GoodHeader(bs) || (CompletedBy(c, e).Some? && Fate(spec, c, e) != Running) then Idle
      else if CompletedBy(c, e).Some? then AwaitHeader
      else (GoodHeaderIff(bs); AwaitBody(ParseHead(bs).value))
    case BodyRead(_, _) => if Fate(spec, c, e) == Running then AwaitHeader else Idle
    case ReadError => Idle
    case _ => c.reading
  }

  lemma NextReading(spec: Schema, c: Conn, e: Event)
    requires HasChannelMethods(spec) && Possible(c, e)
    ensures Next(spec, c, e).reading == ReadingFate(spec, c, e)
  {
    hide TakeFrame, FrameFate, ErrorFate, ParseHead, GoodHeader, CloseFrom, BeginWrite, WriteDone, OpenFrame;
    match e {
      case HeaderRead(bs, o) =>
        GoodHeaderIff(bs);
        if ParseHead(bs).Some? {
          var head := ParseHead(bs).value;
          var d, f := c.(received := c.received + bs), Frame(head.ftype, head.channel, []);
          DispatchFate(spec, d, f, o);
          SameFate(spec, c, d.received, f, o);
        }
      case BodyRead(bs, o) =>
        if ParseBody(c.reading.head, bs).Ok? {
          var d, f := c.(received := c.received + bs), ParseBody(c.reading.head, bs).value;
          DispatchFate(spec, d, f, o);
          SameFate(spec, c, d.received, f, o);
        }
      case _ =>
    }
  }

  /** Once a read has failed nothing more is read, dispatched or answered, whatever else the run does. */
  lemma {:induction false} NoReadAfterError(spec: Schema, c: Conn, es: seq<Event>)
    requires HasChannelMethods(spec) && IsRun(spec, c, es) && c.reading == Idle
    ensures var d := After(spec, c, es);
            d.reading == Idle && d.received == c.received && d.dispatched == c.dispatched && d.dead == c.dead
    decreases |es|
  {
    hide Next;
    if es != [] {
      NextReading(spec, c, es[0]);
      EventCompletes(spec, c, es[0]);
      IdleReceives(spec, c, es[0]);
      assert c.dispatched + [] == c.dispatched && c.dead + [] == c.dead;
      NoReadAfterError(spec, Next(spec, c, es[0]), es[1..]);
    }
  }

  lemma IdleReceives(spec: Schema, c: Conn, e: Event)
    requires HasChannelMethods(spec) && Possible(c, e) && c.reading == Idle
    ensures Next(spec, c, e).received == c.received && CompletedBy(c, e) == None
  {
    hide CloseFrom, BeginWrite, WriteDone, OpenFrame;
  }

  // ---- how a run ends ----

  lemma {:induction false} RunSplits(spec: Schema, c: Conn, es: seq<Event>, n: nat)
    requires HasChannelMethods(spec) && IsRun(spec, c, es) && n <= |es|
    ensures IsRun(spec, c, es[..n]) && IsRun(spec, After(spec, c, es[..n]), es[n..])
    ensures After(spec, After(spec, c, es[..n]), es[n..]) == After(spec, c, es)
    decreases n
  {
    hide Possible, Next;
    if n == 0 {
      assert es[..0] == [] && es[0..] == es;
    } else {
      RunSplits(spec, Next(spec, c, es[0]), es[1..], n - 1);
      assert es[..n][1..] == es[1..][..n - 1] && es[n..] == es[1..][n - 1..];
    }
  }

  /**
   * Over every run every event but the last leaves the thread running, and it stands after the run as the last event
   * leaves it.
   */
  lemma RunFate(spec: Schema, c: Conn, es: seq<Event>)
    requires HasChannelMethods(spec) && IsRun(spec, c, es) && es != []
    ensures var before := es[..|es| - 1];
            && IsRun(spec, c, before) && Possible(After(spec, c, before), es[|es| - 1])
            && After(spec, c, es).status == Fate(spec, After(spec, c, before), es[|es| - 1])
    ensures forall n :: 0 <= n < |es| ==> IsRun(spec, c, es[..n]) && After(spec, c, es[..n]).status == Running
  {
    hide Next, Fate;
    forall n | 0 <= n < |es| ensures IsRun(spec, c, es[..n]) && After(spec, c, es[..n]).status == Running {
      RunSplits(spec, c, es, n);
      assert es[n..] != [];
    }
    var n := |es| - 1;
    RunSplits(spec, c, es, n);
    var d := After(spec, c, es[..n]);
    assert es[n..] == [es[n]] && es[n..][1..] == [];
    NextFate(spec, d, es[n]);
    var q := Next(spec, d, es[n]);
    assert After(spec, q, []) == q;
  }

  // ---- frames can always be received ----

  /** The reads that bring in a frame. */
  function ReadsOf(f: Frame, o: Outcome): seq<Event> {
    var bs := PrintFrame(f);
    if f.payload == [] then [HeaderRead(bs, o)] else [HeaderRead(bs[..8], o), BodyRead(bs[8..], o)]
  }

  lemma PrintParts(f: Frame)
    requires Sendable(f)
    ensures var bs := PrintFrame(f);
            && |bs| == 8 + |f.payload|
            && ParseHead(bs[..8]).Some?
            && var head := ParseHead(bs[..8]).value;
               && head.ftype == f.ftype && head.channel == f.channel && head.size == |f.payload|
               && (f.payload != [] ==> ParseBody(head, bs[8..]) == Ok(f, []))
  {
    var bs := PrintFrame(f);
    assert bs + [] == bs;
    ParseFrameIff(bs, f, []);
    hide PrintFrame, ParseHead;
    assert bs[..8] == (bs + [])[..8];
  }

  /** Whenever a header is awaited, any frame can be received whose handler, if there is one, can end that way. */
  lemma FrameIsRead(spec: Schema, c: Conn, f: Frame, o: Outcome)
    requires HasChannelMethods(spec) && c.status == Running && |c.slots| > 0 && c.reading == AwaitHeader
    requires Sendable(f) && OutcomePossible(f.channel, o)
    ensures IsRun(spec, c, ReadsOf(f, o))
    ensures After(spec, c, ReadsOf(f, o)) == TakeFrame(spec, c.(received := c.received + PrintFrame(f)), f, o)
  {
    hide PrintFrame, ParseHead, ParseBody, TakeFrame, Sendable;
    var bs := PrintFrame(f);
    PrintParts(f);
    var d := c.(received := c.received + bs);
    if f.payload == [] {
      assert bs[..8] == bs;
      var e := HeaderRead(bs, o);
      assert [e][1..] == [] && Next(spec, c, e) == TakeFrame(spec, d, f, o);
      OneEvent(spec, c, e);
    } else {
      var e1, e2 := HeaderRead(bs[..8], o), BodyRead(bs[8..], o);
      var head := ParseHead(bs[..8]).value;
      var mid := c.(received := c.received + bs[..8], reading := AwaitBody(head));
      assert Possible(c, e1) && Next(spec, c, e1) == mid && Possible(mid, e2);
      assert c.received + bs[..8] + bs[8..] == c.received + bs;
      ReadingForgotten(spec, d, AwaitBody(head), f, o);
      assert Next(spec, mid, e2) == TakeFrame(spec, d, f, o);
      TwoEvents(spec, c, e1, e2);
    }
  }

  lemma ReadingForgotten(spec: Schema, c: Conn, reading: Reading, f: Frame, o: Outcome)
    requires HasChannelMethods(spec)
    ensures TakeFrame(spec, c.(reading := reading), f, o) == TakeFrame(spec, c, f, o)
  {
    hide Dispatch;
  }

  lemma OneEvent(spec: Schema, c: Conn, e: Event)
    requires HasChannelMethods(spec) && Possible(c, e)
    ensures IsRun(spec, c, [e]) && After(spec, c, [e]) == Next(spec, c, e)
  {
    hide Possible, Next;
    var d := Next(spec, c, e);
    assert [e][1..] == [] && IsRun(spec, d, []) && After(spec, d, []) == d;
  }

  lemma TwoEvents(spec: Schema, c: Conn, e1: Event, e2: Event)
    requires HasChannelMethods(spec) && Possible(c, e1) && Possible(Next(spec, c, e1), e2)
    ensures IsRun(spec, c, [e1, e2]) && After(spec, c, [e1, e2]) == Next(spec, Next(spec, c, e1), e2)
  {
    hide Possible, Next;
    assert [e1, e2][1..] == [e2];
    OneEvent(spec, Next(spec, c, e1), e2);
  }

  lemma {:induction false} RunJoins(spec: Schema, c: Conn, es: seq<Event>, ds: seq<Event>)
    requires HasChannelMethods(spec) && IsRun(spec, c, es) && IsRun(spec, After(spec, c, es), ds)
    ensures IsRun(spec, c, es + ds) && After(spec, c, es + ds) == After(spec, After(spec, c, es), ds)
    decreases |es|
  {
    hide Possible, Next;
    if es == [] {
      assert [] + ds == ds;
    } else {
      assert (es + ds)[1..] == es[1..] + ds;
      RunJoins(spec, Next(spec, c, es[0]), es[1..], ds);
    }
  }

  /** A heartbeat on channel 0: its handler can only throw, nothing catches what it throws, and the thread stops. */
  lemma HeartbeatOnZero(spec: Schema, g: Guard)
    requires HasChannelMethods(spec)
    ensures var bs := [8, 0, 0, 0, 0, 0, 0, 206];
            && (forall o :: Possible(Started(g), HeaderRead(bs, o)) <==> o == OtherException)
            && IsRun(spec, Started(g), [HeaderRead(bs, OtherException)])
            && After(spec, Started(g), [HeaderRead(bs, OtherException)]).status == Uncaught
  {
    var f, c := Frame(HeartbeatFrame, 0, []), Started(g);
    var bs := [8, 0, 0, 0, 0, 0, 0, 206];
    WireBytes.FrameBytes(f);
    assert PrintFrame(f) == bs && bs[..8] == bs;
    PrintParts(f);
    hide PrintFrame, ParseHead;
    FrameIsRead(spec, c, f, OtherException);
    DispatchFate(spec, c.(received := c.received + bs), f, OtherException);
  }

  // ---- channel.close on a dead slot ----

  /**
   * On an open connection a method for a slot that does not exist or whose handler is gone makes the pump accept one
   * frame if it is class 20, method 40, and nothing otherwise; the peer receives it as class 20, method 41, on the
   * same channel.
   */
  lemma DeadMethodAnswered(spec: Schema, c: Conn, f: Frame, o: Outcome)
    requires HasChannelMethods(spec) && c.pump.open && f.ftype == MethodFrame && DecodeMethod(spec, f.payload).Ok?
    requires f.channel >= |c.slots| || !c.slots[f.channel].alive
    ensures var m := DecodeMethod(spec, f.payload).value;
            var p := Dispatch(spec, c, f, o).pump.accepted;
            && (m.classId == 20 && m.methodId == 40 ==>
                  p == c.pump.accepted + [Frame(MethodFrame, f.channel, [0, 20, 0, 41])])
            && (m.classId != 20 || m.methodId != 40 ==> p == c.pump.accepted)
    ensures Receive(spec, Frame(MethodFrame, f.channel, [0, 20, 0, 41])) == Some(Sent(f.channel, Method(20, 41, [])))
  {
    DispatchPays(spec, c, f, o);
    assert c.pump.accepted + [] == c.pump.accepted;
    ChannelFrames(spec, f.channel);
    ConnectionManager.RepliesAreReadable(spec, f.channel);
    hide Dispatch, Receive, CloseOkFrame;
  }

  /** From the start: a channel is opened, its handler dies, and the peer closes it; what is submitted is this. */
  lemma ClosedByPeer(spec: Schema, g: Guard, f: Frame, o: Outcome)
    requires HasChannelMethods(spec) && f.ftype == MethodFrame && f.channel == 1 && Sendable(f)
    requires DecodeMethod(spec, f.payload).Ok?
    requires var m := DecodeMethod(spec, f.payload).value; m.classId == 20 && m.methodId == 40
    ensures var es := [ChannelOpened, HandlerDied(1)] + ReadsOf(f, o);
            && IsRun(spec, Started(g), es)
            && var d := After(spec, Started(g), es);
               && d.status == Running && d.reading == AwaitHeader
               && d.pump.accepted == [Frame(MethodFrame, 1, [0, 20, 0, 10, 0]), Frame(MethodFrame, 1, [0, 20, 0, 41])]
  {
    hide DecodeMethod, OpenFrame, CloseOkFrame, PrintFrame, ReadsOf, Sendable, FrameHeader, TakeFrame, See;
    var c := Started(g);
    ChannelFrames(spec, 1);
    TwoEvents(spec, c, ChannelOpened, HandlerDied(1));
    var d := After(spec, c, [ChannelOpened, HandlerDied(1)]);
    assert d.slots == [Slot(0, true, false), Slot(1, false, false)] && d.pump.open;
    assert d.pump.accepted == [OpenOn(1)];
    FrameIsRead(spec, d, f, o);
    RunJoins(spec, c, [ChannelOpened, HandlerDied(1)], ReadsOf(f, o));
    var e := d.(received := d.received + PrintFrame(f));
    DispatchFate(spec, e, f, o);
    TakePays(spec, e, f, o);
  }

  lemma TakePays(spec: Schema, c: Conn, f: Frame, o: Outcome)
    requires HasChannelMethods(spec) && c.pump.open && !HasHandler(c, f) && ClosesChannel(spec, f)
    ensures TakeFrame(spec, c, f, o).pump.accepted == c.pump.accepted + [CloseOkOn(f.channel)]
  {
    DispatchPays(spec, c.(reading := Idle), f, o);
    hide Dispatch, ClosesChannel;
  }

  /** A channel gets the next free slot, a live handler and an open frame; from 65536 slots on nothing happens. */
  lemma OpensChannel(spec: Schema, c: Conn)
    requires HasChannelMethods(spec)
    ensures |c.slots| >= 65536 ==> OpenChannel(spec, c) == c
    ensures |c.slots| < 65536 ==>
              && OpenChannel(spec, c).slots == c.slots + [Slot(|c.slots|, true, false)]
              && OpenChannel(spec, c).pump.accepted
                 == c.pump.accepted + (if c.pump.open then [Frame(MethodFrame, |c.slots|, [0, 20, 0, 10, 0])] else [])
  {
    assert c.pump.accepted + [] == c.pump.accepted;
    if |c.slots| < 65536 {
      ChannelFrames(spec, |c.slots|);
    }
    hide OpenFrame, FrameHeader;
  }
}
