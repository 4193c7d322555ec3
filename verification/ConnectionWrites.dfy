/** The write side of a run of the connection manager is a run of the write pump. */
module ConnectionWrites {
  import opened Bytes
  import opened Streams
  import opened MethodStreams
  import opened Framing
  import opened WritePump
  import opened Connection
  import opened ConnectionRuns

  /** The frame an event completes. */
  function CompletedBy(c: Conn, e: Event): Option<Frame>
    requires Possible(c, e)
  {
    match e
    case HeaderRead(bs, _) =>
      (match ParseHead(bs)
       case None => None
       case Some(head) => if head.size > 0 then None else Some(Frame(head.ftype, head.channel, [])))
    case BodyRead(bs, _) =>
      (match ParseBody(c.reading.head, bs)
       case Err => None
       case Ok(f, _) => Some(f))
    case _ => None
  }

  /** Who submits a frame: the application, an opening channel, or the manager in answer to a channel.close. */
  datatype Origin = Application | Opening | Answer

  datatype Submission = Submission(origin: Origin, f: Frame)

  function From(o: Origin, subs: seq<Submission>): seq<Frame> {
    if subs == [] then []
    else (if subs[0].origin == o then [subs[0].f] else []) + From(o, subs[1..])
  }

  function Frames(subs: seq<Submission>): seq<Frame> {
    seq(|subs|, i requires 0 <= i < |subs| => subs[i].f)
  }

  function AnswersTo(spec: Schema, f: Frame): (subs: seq<Submission>)
    requires HasChannelMethods(spec)
    ensures Frames(subs) == From(Answer, subs) == OwedFor(spec, f)
    ensures From(Application, subs) == From(Opening, subs) == []
  {
    if ClosesChannel(spec, f) then [Submission(Answer, CloseOkOn(f.channel))] else []
  }

  function SubmittedBy(spec: Schema, c: Conn, e: Event): seq<Submission>
    requires HasChannelMethods(spec) && Possible(c, e)
  {
    match e
    case Submitted(f) => [Submission(Application, f)]
    case ChannelOpened =>
      if |c.slots| < MAX_CHANNELS then [Submission(Opening, OpenOn(|c.slots|))] else []
    case _ =>
      match CompletedBy(c, e)
      case None => []
      case Some(f) => if HasHandler(c, f) then [] else AnswersTo(spec, f)
  }

  function Begins(subs: seq<Submission>): seq<PumpEvent> {
    seq(|subs|, i requires 0 <= i < |subs| => Begin(subs[i].f))
  }

  /** The pump events one event of the manager amounts to. */
  function PumpEvents(spec: Schema, c: Conn, e: Event): seq<PumpEvent>
    requires HasChannelMethods(spec) && Possible(c, e)
  {
    match e
    case ReadError => [Closed]
    case Written(k, header) => [Done(k, header)]
    case WriteError(k) => [Failed(k)]
    case _ => Begins(SubmittedBy(spec, c, e))
  }

  function Writes(spec: Schema, c: Conn, es: seq<Event>): seq<PumpEvent>
    requires HasChannelMethods(spec) && IsRun(spec, c, es)
    decreases |es|
  {
    if es == [] then [] else PumpEvents(spec, c, es[0]) + Writes(spec, Next(spec, c, es[0]), es[1..])
  }

  /** The pump gets from p to q by these events. */
  ghost predicate Leads(p: Pump, es: seq<PumpEvent>, q: Pump) {
    Runs(p, es) && Run(p, es) == q
  }

  lemma LeadsNowhere(p: Pump)
    ensures Leads(p, [], p)
  {
  }

  lemma LeadsByOne(p: Pump, e: PumpEvent)
    requires Enabled(p, e)
    ensures Leads(p, [e], Step(p, e))
  {
    hide Step;
    var q := Step(p, e);
    assert [e][1..] == [];
    assert Runs(q, []) && Run(q, []) == q;
  }

  lemma {:induction false} LeadsOn(p: Pump, es: seq<PumpEvent>, q: Pump, fs: seq<PumpEvent>, r: Pump)
    requires Leads(p, es, q) && Leads(q, fs, r)
    ensures Leads(p, es + fs, r)
    decreases |es|
  {
    if es == [] {
      assert [] + fs == fs;
    } else {
      LeadsOn(Step(p, es[0]), es[1..], q, fs, r);
      assert (es + fs)[1..] == es[1..] + fs;
    }
  }

  lemma BeginsOne(o: Origin, f: Frame)
    ensures Begins([Submission(o, f)]) == [Begin(f)] && Begins([]) == []
  {
  }

  lemma TakeFrameWrites(spec: Schema, c: Conn, f: Frame, o: Outcome)
    requires HasChannelMethods(spec)
    ensures Leads(c.pump, if HasHandler(c, f) then [] else Begins(AnswersTo(spec, f)), TakeFrame(spec, c, f, o).pump)
  {
    hide DecodeMethod, CloseOkFrame, BeginWrite, Runs, Run, Begins;
    LeadsNowhere(c.pump);
    ChannelFrames(spec, f.channel);
    var reply := CloseOkOn(f.channel);
    BeginsOne(Answer, reply);
    LeadsByOne(c.pump, Begin(reply));
    assert Step(c.pump, Begin(reply)) == BeginWrite(c.pump, reply);
  }

  lemma StepWrites(spec: Schema, c: Conn, e: Event)
    requires HasChannelMethods(spec) && Possible(c, e)
    ensures Leads(c.pump, PumpEvents(spec, c, e), Next(spec, c, e).pump)
  {
    hide TakeFrame, AnswersTo, Begins, ParseHead, ParseBody, CloseFrom, OpenFrame, BeginWrite, WriteDone, Runs, Run;
    LeadsNowhere(c.pump);
    match e {
      case HeaderRead(bs, o) =>
        BeginsOne(Answer, Frame(HeartbeatFrame, 0, []));
        if ParseHead(bs).Some? {
          var head := ParseHead(bs).value;
          TakeFrameWrites(spec, c.(received := c.received + bs), Frame(head.ftype, head.channel, []), o);
        }
      case BodyRead(bs, o) =>
        BeginsOne(Answer, Frame(HeartbeatFrame, 0, []));
        if ParseBody(c.reading.head, bs).Ok? {
          TakeFrameWrites(spec, c.(received := c.received + bs), ParseBody(c.reading.head, bs).value, o);
        }
      case ReadError => LeadsByOne(c.pump, Closed);
      case Submitted(f) =>
        BeginsOne(Application, f);
        LeadsByOne(c.pump, Begin(f));
      case Written(k, header) => LeadsByOne(c.pump, Done(k, header));
      case WriteError(k) => LeadsByOne(c.pump, Failed(k));
      case ChannelOpened =>
        if |c.slots| < MAX_CHANNELS {
          ChannelFrames(spec, |c.slots|);
          var f := OpenOn(|c.slots|);
          BeginsOne(Opening, f);
          LeadsByOne(c.pump, Begin(f));
        } else {
          BeginsOne(Opening, Frame(HeartbeatFrame, 0, []));
        }
      case HandlerDied(i) => BeginsOne(Answer, Frame(HeartbeatFrame, 0, []));
    }
  }

  /**
   * Every run of the manager drives its pump through a run of the pump machine, so all that is proved of the
   * pump holds.
   */
  lemma {:induction false} WritesDriveThePump(spec: Schema, c: Conn, es: seq<Event>)
    requires HasChannelMethods(spec) && IsRun(spec, c, es)
    ensures Leads(c.pump, Writes(spec, c, es), After(spec, c, es).pump)
    decreases |es|
  {
    if es == [] {
      LeadsNowhere(c.pump);
    } else {
      var d := Next(spec, c, es[0]);
      StepWrites(spec, c, es[0]);
      WritesDriveThePump(spec, d, es[1..]);
      LeadsOn(c.pump, PumpEvents(spec, c, es[0]), d.pump, Writes(spec, d, es[1..]), After(spec, d, es[1..]).pump);
    }
  }

  lemma InitialPump(g: Guard)
    ensures Orderly(Initial(g)) && Tracked(Initial(g)) && AllSure(Initial(g))
    ensures Initial(g).wire == PrintAll(Initial(g).done)
    ensures Eager(Initial(AsWritten))
  {
    InitialIsOrderly(g);
  }

  /** With the intended guard every run writes cleanly: one write at a time, whole frames, in submission order. */
  lemma IntendedRunsWriteCleanly(spec: Schema, es: seq<Event>)
    requires HasChannelMethods(spec) && IsRun(spec, Started(WithCurrent), es)
    ensures var p := After(spec, Started(WithCurrent), es).pump;
            && |p.inFlight| <= 1 && p.accepted == p.done + p.failed + Flying(p.inFlight) + p.queue
            && p.wire == PrintAll(p.done)
            && ((forall f <- p.done :: Sendable(f)) ==> ParseStream(p.wire) == Some(p.done))
  {
    var p := After(spec, Started(WithCurrent), es).pump;
    WritesDriveThePump(spec, Started(WithCurrent), es);
    InitialPump(WithCurrent);
    IntendedPumpIsOrderly(Initial(WithCurrent), Writes(spec, Started(WithCurrent), es));
    ParseStreamIff(p.wire, p.done);
  }

  /** No frame is submitted, by the application or by the manager itself, while a write is in flight. */
  ghost predicate Quiet(spec: Schema, es: seq<Event>)
    requires HasChannelMethods(spec) && IsRun(spec, Started(AsWritten), es)
  {
    WritesDriveThePump(spec, Started(AsWritten), es);
    NeverBusy(Initial(AsWritten), Writes(spec, Started(AsWritten), es))
  }

  /**
   * If a connection never submits a frame during a write, then over its whole run the wire carries the submitted
   * frames, whole and in order, and the peer's parser returns exactly those completed.
   */
  lemma QuietRunsWriteCleanly(spec: Schema, es: seq<Event>)
    requires HasChannelMethods(spec) && IsRun(spec, Started(AsWritten), es) && Quiet(spec, es)
    ensures var p := After(spec, Started(AsWritten), es).pump;
            && |p.inFlight| <= 1 && p.accepted == p.done + p.failed + Flying(p.inFlight)
            && p.wire == PrintAll(p.done)
            && ((forall f <- p.done :: Sendable(f)) ==> ParseStream(p.wire) == Some(p.done))
  {
    var ws := Writes(spec, Started(AsWritten), es);
    var p := After(spec, Started(AsWritten), es).pump;
    WritesDriveThePump(spec, Started(AsWritten), es);
    InitialPump(AsWritten);
    NeverBusyIsIntended(Initial(AsWritten), ws);
    WrittenPumpIsEager(Initial(AsWritten), ws);
    ParseStreamIff(p.wire, p.done);
    var sent := p.done + p.failed + Flying(p.inFlight);
    assert sent + [] == sent;
  }

  // ---- when frames go out under their own headers ----

  /** In every state of the run every write in flight is sure to put its own frame on the wire. */
  ghost predicate CleanThroughout(spec: Schema, c: Conn, es: seq<Event>)
    requires HasChannelMethods(spec) && IsRun(spec, c, es)
    decreases |es|
  {
    AllSure(c.pump) && (es != [] ==> CleanThroughout(spec, Next(spec, c, es[0]), es[1..]))
  }

  /** Whatever frame an event submits has the header of all writes in flight. */
  predicate SubmitsMatching(spec: Schema, c: Conn, e: Event)
    requires HasChannelMethods(spec) && Possible(c, e)
  {
    forall s <- SubmittedBy(spec, c, e) :: Matches(c.pump, Begin(s.f))
  }

  predicate MatchingThroughout(spec: Schema, c: Conn, es: seq<Event>)
    requires HasChannelMethods(spec) && IsRun(spec, c, es)
    decreases |es|
  {
    es != [] ==> SubmitsMatching(spec, c, es[0]) && MatchingThroughout(spec, Next(spec, c, es[0]), es[1..])
  }

  lemma AtMostOne(spec: Schema, c: Conn, e: Event)
    requires HasChannelMethods(spec) && Possible(c, e)
    ensures |SubmittedBy(spec, c, e)| <= 1
    ensures |PumpEvents(spec, c, e)| <= 1
    ensures PumpEvents(spec, c, e) != [] && PumpEvents(spec, c, e)[0].Begin?
        ==> SubmittedBy(spec, c, e) != [] && PumpEvents(spec, c, e)[0] == Begin(SubmittedBy(spec, c, e)[0].f)
    ensures PumpEvents(spec, c, e) == [] || !PumpEvents(spec, c, e)[0].Begin? ==> SubmittedBy(spec, c, e) == []
  {
    hide OpenFrame, CloseOkFrame, ClosesChannel, ParseHead, ParseBody;
  }

  /** One event of the manager: clean before, it is clean after exactly when what it submits matches. */
  lemma CleanEvent(spec: Schema, c: Conn, e: Event)
    requires HasChannelMethods(spec) && Possible(c, e) && Eager(c.pump) && AllSure(c.pump)
    ensures var q := Next(spec, c, e).pump;
            && Eager(q) && (AllSure(q) <==> SubmitsMatching(spec, c, e))
            && (c.pump.wire == PrintAll(c.pump.done) ==> q.wire == PrintAll(q.done))
  {
    hide Next, Possible, SubmittedBy, PumpEvents, AllSure, PrintAll, Matches, Step;
    var p, q, es := c.pump, Next(spec, c, e).pump, PumpEvents(spec, c, e);
    StepWrites(spec, c, e);
    AtMostOne(spec, c, e);
    WrittenPumpIsEager(p, es);
    var subs := SubmittedBy(spec, c, e);
    if es == [] {
      assert q == p && subs == [];
    } else {
      LedByOne(p, es, q);
      CleanOne(p, es[0]);
      assert es[0].Begin? ==> subs == [subs[0]] && es[0] == Begin(subs[0].f);
    }
  }

  lemma LedByOne(p: Pump, es: seq<PumpEvent>, q: Pump)
    requires Leads(p, es, q) && |es| == 1
    ensures Enabled(p, es[0]) && q == Step(p, es[0])
  {
    hide Step;
    var n := Step(p, es[0]);
    assert es[1..] == [] && Run(n, []) == n;
    assert Run(p, es) == Run(n, es[1..]);
  }

  lemma CleanOne(p: Pump, e: PumpEvent)
    requires Eager(p) && AllSure(p) && Enabled(p, e)
    ensures var q := Step(p, e);
            && (AllSure(q) <==> Matches(p, e)) && (!e.Begin? ==> Matches(p, e))
            && (p.wire == PrintAll(p.done) ==> q.wire == PrintAll(q.done))
  {
    AllSureIffOwn(p);
    AllSureIffOwn(Step(p, e));
    OwnStep(p, e);
    if p.wire == PrintAll(p.done) {
      CleanStep(p, e);
    }
    hide AllSure, AllOwn, PrintAll, Step;
  }

  /**
   * As written, over every run of the manager: in every state every write is sure to put its own frame on the wire,
   * if and only if whatever is submitted has the header of all writes in flight at that moment. Then the wire is
   * the print of the completed frames, and the peer parses exactly those.
   */
  lemma {:induction false} CleanRunsIff(spec: Schema, c: Conn, es: seq<Event>)
    requires HasChannelMethods(spec) && IsRun(spec, c, es) && Eager(c.pump) && AllSure(c.pump)
    requires c.pump.wire == PrintAll(c.pump.done)
    ensures CleanThroughout(spec, c, es) <==> MatchingThroughout(spec, c, es)
    ensures CleanThroughout(spec, c, es) ==> var p := After(spec, c, es).pump;
              && p.wire == PrintAll(p.done)
              && ((forall f <- p.done :: Sendable(f)) ==> ParseStream(p.wire) == Some(p.done))
    decreases |es|
  {
    hide AllSure, PrintAll, Next, Possible, SubmitsMatching, ParseStream;
    if es == [] {
      ParseStreamIff(c.pump.wire, c.pump.done);
    } else {
      var d := Next(spec, c, es[0]);
      CleanEvent(spec, c, es[0]);
      if AllSure(d.pump) {
        CleanRunsIff(spec, d, es[1..]);
      } else {
        NotClean(spec, d, es[1..]);
      }
    }
  }

  lemma NotClean(spec: Schema, c: Conn, es: seq<Event>)
    requires HasChannelMethods(spec) && IsRun(spec, c, es) && !AllSure(c.pump)
    ensures !CleanThroughout(spec, c, es)
  {
  }

  /** That for runs from the start, and write by write. */
  lemma StartedRunsCleanIff(spec: Schema, es: seq<Event>)
    requires HasChannelMethods(spec) && IsRun(spec, Started(AsWritten), es)
    ensures CleanThroughout(spec, Started(AsWritten), es) <==> MatchingThroughout(spec, Started(AsWritten), es)
    ensures var q := After(spec, Started(AsWritten), es).pump;
            forall k :: 0 <= k < |q.inFlight| ==>
              && 0 <= StartOf(q, k) < |q.started|
              && (Sure(q, k)
                  <==> forall j :: StartOf(q, k) < j < |q.started| ==>
                         FrameHeader(q.started[j]) == FrameHeader(q.inFlight[k].f))
  {
    InitialPump(AsWritten);
    CleanRunsIff(spec, Started(AsWritten), es);
    WritesDriveThePump(spec, Started(AsWritten), es);
    var q := After(spec, Started(AsWritten), es).pump;
    forall k | 0 <= k < |q.inFlight|
      ensures 0 <= StartOf(q, k) < |q.started|
      ensures Sure(q, k) <==> forall j :: StartOf(q, k) < j < |q.started| ==>
                                FrameHeader(q.started[j]) == FrameHeader(q.inFlight[k].f)
    {
      HeaderOverwritten(Initial(AsWritten), Writes(spec, Started(AsWritten), es), k);
    }
  }

  // ---- what is submitted over a run ----

  function SubmittedIn(spec: Schema, c: Conn, es: seq<Event>): seq<Submission>
    requires HasChannelMethods(spec) && IsRun(spec, c, es)
    decreases |es|
  {
    if es == [] then [] else SubmittedBy(spec, c, es[0]) + SubmittedIn(spec, Next(spec, c, es[0]), es[1..])
  }

  /** The frames completed over a run that found no live handler. */
  function DeadIn(spec: Schema, c: Conn, es: seq<Event>): seq<Frame>
    requires HasChannelMethods(spec) && IsRun(spec, c, es)
    decreases |es|
  {
    if es == [] then [] else DeadBy(c, es[0]) + DeadIn(spec, Next(spec, c, es[0]), es[1..])
  }

  function DeadBy(c: Conn, e: Event): seq<Frame>
    requires Possible(c, e)
  {
    match CompletedBy(c, e)
    case None => []
    case Some(f) => if HasHandler(c, f) then [] else [f]
  }

  /** The frames the application submits. */
  function Requested(es: seq<Event>): seq<Frame> {
    if es == [] then [] else (if es[0].Submitted? then [es[0].f] else []) + Requested(es[1..])
  }

  /** The open frames of the channels lo to hi. */
  function OpenFrames(lo: nat, hi: nat): seq<Frame>
    requires hi <= 65536
    decreases hi - lo
  {
    if lo >= hi then [] else [OpenOn(lo)] + OpenFrames(lo + 1, hi)
  }

  lemma {:induction false} FromAppend(o: Origin, a: seq<Submission>, b: seq<Submission>)
    ensures From(o, a + b) == From(o, a) + From(o, b)
  {
    if a == [] {
      assert [] + b == b;
    } else {
      assert (a + b)[1..] == a[1..] + b;
      FromAppend(o, a[1..], b);
      Regroup(if a[0].origin == o then [a[0].f] else [], From(o, a[1..]), From(o, b));
    }
  }

  lemma {:induction false} OwedAppend(spec: Schema, a: seq<Frame>, b: seq<Frame>)
    requires HasChannelMethods(spec)
    ensures Owed(spec, a + b) == Owed(spec, a) + Owed(spec, b)
  {
    hide OwedFor;
    if a == [] {
      assert [] + b == b;
    } else {
      assert (a + b)[1..] == a[1..] + b;
      OwedAppend(spec, a[1..], b);
      Regroup(OwedFor(spec, a[0]), Owed(spec, a[1..]), Owed(spec, b));
    }
  }

  lemma {:induction false} BegunBegins(subs: seq<Submission>)
    ensures Begun(Begins(subs)) == Frames(subs)
  {
    if subs != [] {
      assert Begins(subs)[0] == Begin(subs[0].f) && Begins(subs)[1..] == Begins(subs[1..]);
      BegunBegins(subs[1..]);
      assert Frames(subs) == [subs[0].f] + Frames(subs[1..]);
    }
  }

  lemma FramesAppend(a: seq<Submission>, b: seq<Submission>)
    ensures Frames(a + b) == Frames(a) + Frames(b)
  {
  }

  /** The writes of a run begin with exactly the frames submitted in it. */
  lemma {:induction false} WritesBegin(spec: Schema, c: Conn, es: seq<Event>)
    requires HasChannelMethods(spec) && IsRun(spec, c, es)
    ensures Begun(Writes(spec, c, es)) == Frames(SubmittedIn(spec, c, es))
    decreases |es|
  {
    hide SubmittedBy, PumpEvents, Next, Possible, Frames, Begun;
    if es == [] {
      assert Begun([]) == Frames([]) by {
        BegunBegins([]);
        assert Begins([]) == [];
      }
    } else {
      var d := Next(spec, c, es[0]);
      var now, tail := SubmittedBy(spec, c, es[0]), SubmittedIn(spec, d, es[1..]);
      WritesBegin(spec, d, es[1..]);
      BegunAppend(PumpEvents(spec, c, es[0]), Writes(spec, d, es[1..]));
      EventBegins(spec, c, es[0]);
      FramesAppend(now, tail);
    }
  }

  lemma EventBegins(spec: Schema, c: Conn, e: Event)
    requires HasChannelMethods(spec) && Possible(c, e)
    ensures Begun(PumpEvents(spec, c, e)) == Frames(SubmittedBy(spec, c, e))
  {
    hide OpenFrame, AnswersTo, ParseHead, ParseBody;
    BegunBegins(SubmittedBy(spec, c, e));
  }

  /** Of what one event submits, each origin has its part. */
  lemma EventOrigins(spec: Schema, c: Conn, e: Event)
    requires HasChannelMethods(spec) && Possible(c, e)
    ensures var now := SubmittedBy(spec, c, e);
            && From(Answer, now) == Owed(spec, DeadBy(c, e))
            && From(Application, now) == (if e.Submitted? then [e.f] else [])
            && From(Opening, now)
               == (if e.ChannelOpened? && |c.slots| < MAX_CHANNELS then [OpenOn(|c.slots|)] else [])
  {
    hide OpenFrame, AnswersTo, OwedFor, ParseHead, ParseBody;
    var now := SubmittedBy(spec, c, e);
    if |now| == 1 {
      assert now[1..] == [];
    }
    match CompletedBy(c, e)
    case None =>
    case Some(f) =>
      assert [f][1..] == [];
      assert OwedFor(spec, f) + [] == OwedFor(spec, f);
  }

  lemma SlotsGrow(spec: Schema, c: Conn, e: Event)
    requires HasChannelMethods(spec) && Possible(c, e)
    ensures |Next(spec, c, e).slots|
         == if e.ChannelOpened? && |c.slots| < MAX_CHANNELS then |c.slots| + 1 else |c.slots|
  {
    hide HandleDead, CloseFrom, ParseHead, ParseBody, OpenFrame, BeginWrite, WriteDone;
    match e {
      case HeaderRead(bs, o) =>
        if ParseHead(bs).Some? {
          var head := ParseHead(bs).value;
          var d := c.(received := c.received + bs, reading := Idle);
          DispatchKeeps(spec, d, Frame(head.ftype, head.channel, []), o);
        }
      case BodyRead(bs, o) =>
        if ParseBody(c.reading.head, bs).Ok? {
          var d := c.(received := c.received + bs, reading := Idle);
          DispatchKeeps(spec, d, ParseBody(c.reading.head, bs).value, o);
        }
      case _ =>
    }
  }

  lemma OriginsStep(spec: Schema, c: Conn, es: seq<Event>)
    requires HasChannelMethods(spec) && IsRun(spec, c, es) && es != [] && |c.slots| <= MAX_CHANNELS
    ensures var d, now := Next(spec, c, es[0]), SubmittedBy(spec, c, es[0]);
            && |c.slots| <= |d.slots| <= MAX_CHANNELS
            && (forall o :: From(o, SubmittedIn(spec, c, es)) == From(o, now) + From(o, SubmittedIn(spec, d, es[1..])))
            && Owed(spec, DeadIn(spec, c, es)) == Owed(spec, DeadBy(c, es[0])) + Owed(spec, DeadIn(spec, d, es[1..]))
  {
    var d, now := Next(spec, c, es[0]), SubmittedBy(spec, c, es[0]);
    SlotsGrow(spec, c, es[0]);
    OwedAppend(spec, DeadBy(c, es[0]), DeadIn(spec, d, es[1..]));
    forall o ensures From(o, SubmittedIn(spec, c, es)) == From(o, now) + From(o, SubmittedIn(spec, d, es[1..])) {
      FromAppend(o, now, SubmittedIn(spec, d, es[1..]));
    }
  }

  /** A run submits the application's frames, one open frame per new channel, and the close-oks owed. */
  lemma {:induction false} Origins(spec: Schema, c: Conn, es: seq<Event>)
    requires HasChannelMethods(spec) && IsRun(spec, c, es) && |c.slots| <= MAX_CHANNELS
    ensures var subs, n := SubmittedIn(spec, c, es), |After(spec, c, es).slots|;
            && |c.slots| <= n <= MAX_CHANNELS
            && From(Answer, subs) == Owed(spec, DeadIn(spec, c, es))
            && From(Application, subs) == Requested(es)
            && From(Opening, subs) == OpenFrames(|c.slots|, n)
    decreases |es|
  {
    hide SubmittedBy, DeadBy, Next, Possible, OpenFrame;
    if es != [] {
      var d := Next(spec, c, es[0]);
      OriginsStep(spec, c, es);
      EventOrigins(spec, c, es[0]);
      SlotsGrow(spec, c, es[0]);
      Origins(spec, d, es[1..]);
    }
  }

  /**
   * Over every run the frames the pump accepts are, in order and while the connection is open, the application's
   * frames, one open frame per new channel, and for every frame that found no live handler the close-ok it is owed.
   */
  lemma {:induction false} DeadChannelsAreAnswered(spec: Schema, c: Conn, es: seq<Event>)
    requires HasChannelMethods(spec) && IsRun(spec, c, es) && |c.slots| <= MAX_CHANNELS
    ensures var p, q, subs := c.pump, After(spec, c, es).pump, SubmittedIn(spec, c, es);
            && p.accepted <= q.accepted <= p.accepted + Frames(subs)
            && (q.open ==> q.accepted == p.accepted + Frames(subs))
            && From(Answer, subs) == Owed(spec, DeadIn(spec, c, es))
            && From(Application, subs) == Requested(es)
            && From(Opening, subs) == (Origins(spec, c, es); OpenFrames(|c.slots|, |After(spec, c, es).slots|))
  {
    WritesDriveThePump(spec, c, es);
    AcceptedWhileOpen(c.pump, Writes(spec, c, es));
    WritesBegin(spec, c, es);
    Origins(spec, c, es);
  }

  /** The frames completed over a run; those without a handler are what the manager records as dead. */
  function CompletedIn(spec: Schema, c: Conn, es: seq<Event>): seq<Frame>
    requires HasChannelMethods(spec) && IsRun(spec, c, es)
    decreases |es|
  {
    if es == [] then []
    else (match CompletedBy(c, es[0]) case None => [] case Some(f) => [f])
         + CompletedIn(spec, Next(spec, c, es[0]), es[1..])
  }

  lemma EventCompletes(spec: Schema, c: Conn, e: Event)
    requires HasChannelMethods(spec) && Possible(c, e)
    ensures var d := Next(spec, c, e);
            && d.dispatched == c.dispatched + (match CompletedBy(c, e) case None => [] case Some(f) => [f])
            && d.dead == c.dead + DeadBy(c, e)
  {
    hide Dispatch, CloseFrom, ParseHead, ParseBody, OpenFrame, BeginWrite, WriteDone;
    assert c.dispatched + [] == c.dispatched && c.dead + [] == c.dead;
    match CompletedBy(c, e)
    case None =>
    case Some(f) =>
      var bs, o := e.bs, e.o;
      var d := c.(received := c.received + bs, reading := Idle);
      DispatchKeeps(spec, d, f, o);
      DispatchPays(spec, d, f, o);
  }

  /** Over a run from the start, the frames completed are the complete frames of the bytes received. */
  lemma {:induction false} RunCompletes(spec: Schema, c: Conn, es: seq<Event>)
    requires HasChannelMethods(spec) && IsRun(spec, c, es)
    ensures var d := After(spec, c, es);
            && d.dispatched == c.dispatched + CompletedIn(spec, c, es)
            && d.dead == c.dead + DeadIn(spec, c, es)
    decreases |es|
  {
    if es == [] {
      assert c.dispatched + [] == c.dispatched && c.dead + [] == c.dead;
    } else {
      var d := Next(spec, c, es[0]);
      EventCompletes(spec, c, es[0]);
      RunCompletes(spec, d, es[1..]);
      hide CompletedBy, DeadBy, Next, Possible;
      var one := match CompletedBy(c, es[0]) case None => [] case Some(f) => [f];
      Regroup(c.dispatched, one, CompletedIn(spec, d, es[1..]));
      Regroup(c.dead, DeadBy(c, es[0]), DeadIn(spec, d, es[1..]));
    }
  }
}
