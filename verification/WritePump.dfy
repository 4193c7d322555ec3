/**
 * The write side of the connection manager as a step machine: begin_write_frame, on_write_frame and the
 * one header buffer that every asynchronous write refers to.
 */
module WritePump {
  import opened Bytes
  import opened Streams
  import opened Framing

  /** The test that decides whether a write is under way: the queue alone, or the current frame as well. */
  datatype Guard = AsWritten | WithCurrent

  /** A write the socket has not completed, and the values the header buffer has held since it was started. */
  datatype Write = Write(f: Frame, seen: seq<bytes>)

  /** The frames of these writes. */
  function Flying(ws: seq<Write>): seq<Frame> {
    seq(|ws|, i requires 0 <= i < |ws| => ws[i].f)
  }

  /** The header buffer is overwritten under these writes. */
  function See(ws: seq<Write>, header: bytes): (r: seq<Write>)
    ensures Flying(r) == Flying(ws)
  {
    seq(|ws|, i requires 0 <= i < |ws| => ws[i].(seen := ws[i].seen + [header]))
  }

  /**
   * guard never changes; header is the writer's buffer; inFlight are the writes the socket has not completed,
   * oldest first.
   * The rest is history: frames submitted while open, started, completed and failed, and the bytes sent.
   */
  datatype Pump = Pump(
    guard: Guard,
    open: bool,
    queue: seq<Frame>,
    current: Option<Frame>,
    header: bytes,
    inFlight: seq<Write>,
    accepted: seq<Frame>,
    started: seq<Frame>,
    done: seq<Frame>,
    failed: seq<Frame>,
    wire: bytes)

  function Initial(g: Guard): Pump {
    Pump(g, true, [], None, [0, 0, 0, 0, 0, 0, 0], [], [], [], [], [], [])
  }

  function Start(p: Pump, f: Frame): Pump {
    var header := FrameHeader(f);
    p.(current := Some(f), header := header, inFlight := See(p.inFlight, header) + [Write(f, [header])],
       started := p.started + [f])
  }

  function BeginWrite(p: Pump, f: Frame): Pump {
    if !p.open then p
    else
      var writing := p.queue != [] || (p.guard == WithCurrent && p.current.Some?);
      var q := p.queue + [f];
      var next := p.(accepted := p.accepted + [f]);
      if writing then next.(queue := q) else Start(next.(queue := q[1..]), q[0])
  }

  function Remove(ws: seq<Write>, k: nat): (r: seq<Write>)
    requires k < |ws|
    ensures |r| == |ws| - 1
  {
    ws[..k] + ws[k + 1..]
  }

  /** The socket has sent write k: the header buffer as it found it, the payload and the footer. */
  function Completed(p: Pump, k: nat, header: bytes): Pump
    requires k < |p.inFlight|
  {
    var f := p.inFlight[k].f;
    p.(inFlight := Remove(p.inFlight, k), done := p.done + [f],
       wire := p.wire + (header + (f.payload + [FRAME_END])))
  }

  function WriteDone(p: Pump, k: nat, header: bytes): Pump
    requires k < |p.inFlight|
  {
    var q := Completed(p, k, header);
    if q.queue != [] then Start(q.(queue := q.queue[1..]), q.queue[0]) else q.(current := None)
  }

  /** A failed write closes the connection. */
  function WriteFailed(p: Pump, k: nat): Pump
    requires k < |p.inFlight|
  {
    p.(open := false, inFlight := Remove(p.inFlight, k), failed := p.failed + [p.inFlight[k].f])
  }

  datatype PumpEvent = Begin(f: Frame) | Done(k: nat, header: bytes) | Failed(k: nat) | Closed

  /** The socket may read the header buffer at any moment between start and completion. */
  predicate Enabled(p: Pump, e: PumpEvent) {
    match e
    case Done(k, header) => k < |p.inFlight| && header in p.inFlight[k].seen
    case Failed(k) => k < |p.inFlight|
    case _ => true
  }

  function Step(p: Pump, e: PumpEvent): Pump
    requires Enabled(p, e)
  {
    match e
    case Begin(f) => BeginWrite(p, f)
    case Done(k, header) => WriteDone(p, k, header)
    case Failed(k) => WriteFailed(p, k)
    case Closed => p.(open := false)
  }

  predicate Runs(p: Pump, es: seq<PumpEvent>)
    decreases |es|
  {
    es == [] || (Enabled(p, es[0]) && Runs(Step(p, es[0]), es[1..]))
  }

  function Run(p: Pump, es: seq<PumpEvent>): Pump
    requires Runs(p, es)
    decreases |es|
  {
    if es == [] then p else Run(Step(p, es[0]), es[1..])
  }

  /** The frames submitted by these events. */
  function Begun(es: seq<PumpEvent>): seq<Frame> {
    if es == [] then []
    else (if es[0].Begin? then [es[0].f] else []) + Begun(es[1..])
  }

  lemma {:induction false} BegunAppend(es: seq<PumpEvent>, ds: seq<PumpEvent>)
    ensures Begun(es + ds) == Begun(es) + Begun(ds)
  {
    if es == [] {
      assert [] + ds == ds;
    } else {
      assert (es + ds)[1..] == es[1..] + ds;
      BegunAppend(es[1..], ds);
      Regroup(if es[0].Begin? then [es[0].f] else [], Begun(es[1..]), Begun(ds));
    }
  }

  /** While it is open a pump accepts everything submitted, in order, and nothing else; from then on nothing. */
  lemma {:induction false} AcceptedWhileOpen(p: Pump, es: seq<PumpEvent>)
    requires Runs(p, es)
    ensures var q := Run(p, es);
            && p.accepted <= q.accepted <= p.accepted + Begun(es)
            && (q.open ==> q.accepted == p.accepted + Begun(es))
            && (!p.open ==> !q.open && q.accepted == p.accepted)
    decreases |es|
  {
    hide Step, Enabled;
    if es == [] {
      assert p.accepted + [] == p.accepted;
    } else {
      var next := Step(p, es[0]);
      AcceptedWhileOpen(next, es[1..]);
      AcceptedStep(p, es[0]);
      var begun := if es[0].Begin? then [es[0].f] else [];
      Regroup(p.accepted, begun, Begun(es[1..]));
    }
  }

  lemma AcceptedStep(p: Pump, e: PumpEvent)
    requires Enabled(p, e)
    ensures var q := Step(p, e);
            && q.accepted == p.accepted + (if p.open && e.Begin? then [e.f] else [])
            && (q.open ==> p.open)
  {
    assert p.accepted + [] == p.accepted;
  }

  // ---- the intended pump ----

  /** The header buffer has held this frame's header ever since. */
  predicate Untouched(w: Write) { w.seen == [FrameHeader(w.f)] }

  /** One write at a time, its header intact, everything in submission order, and clean frames on the wire. */
  ghost predicate Orderly(p: Pump) {
    && |p.inFlight| <= 1
    && (p.inFlight != [] ==> Untouched(p.inFlight[0]) && p.current == Some(p.inFlight[0].f))
    && (p.open && p.inFlight == [] ==> p.current == None && p.queue == [])
    && (p.failed != [] ==> !p.open && p.inFlight == [])
    && p.accepted == p.done + p.failed + Flying(p.inFlight) + p.queue
    && p.wire == PrintAll(p.done)
  }

  lemma OneFlying(w: Write)
    ensures Flying([w]) == [w.f] && Flying([]) == []
    ensures Remove([w], 0) == []
  {
  }

  lemma OrderlyStep(p: Pump, e: PumpEvent)
    requires p.guard == WithCurrent && Orderly(p) && Enabled(p, e)
    ensures Orderly(Step(p, e))
  {
    match e {
      case Begin(f) => OrderlyBegin(p, f);
      case Done(k, header) => OrderlyDone(p);
      case Failed(k) => OrderlyFailed(p);
      case Closed =>
    }
  }

  lemma StartAlone(p: Pump, f: Frame)
    requires p.inFlight == []
    ensures Start(p, f).inFlight == [Write(f, [FrameHeader(f)])] && Flying(Start(p, f).inFlight) == [f]
  {
    var w := Write(f, [FrameHeader(f)]);
    assert See([], w.seen[0]) + [w] == [w];
  }

  lemma OrderlyBegin(p: Pump, f: Frame)
    requires p.guard == WithCurrent && Orderly(p)
    ensures Orderly(BeginWrite(p, f))
  {
    hide PrintAll, FrameHeader, See;
    if p.open {
      var before := p.done + p.failed + Flying(p.inFlight);
      assert p.accepted + [f] == before + (p.queue + [f]);
      if p.inFlight == [] {
        assert p.queue + [f] == [f] && (p.queue + [f])[1..] == [];
        StartAlone(p.(accepted := p.accepted + [f], queue := []), f);
        assert before + [f] == p.done + p.failed + [f] + [];
      }
    }
  }

  lemma PrintOneMore(fs: seq<Frame>, f: Frame)
    ensures PrintAll(fs + [f]) == PrintAll(fs) + PrintFrame(f)
  {
    PrintAllAppend(fs, [f]);
    assert PrintAll([f]) == PrintFrame(f) + PrintAll([]);
    assert PrintFrame(f) + [] == PrintFrame(f);
  }

  /** The one frame in flight is recorded as done, and the next one in the queue as in flight. */
  lemma AcceptedAfterDone(done: seq<Frame>, f: Frame, queue: seq<Frame>)
    ensures queue == [] ==> done + [] + [f] + queue == (done + [f]) + [] + [] + queue
    ensures queue != [] ==> done + [] + [f] + queue == (done + [f]) + [] + [queue[0]] + queue[1..]
  {
  }

  lemma OrderlyDone(p: Pump)
    requires Orderly(p) && |p.inFlight| == 1
    ensures Orderly(WriteDone(p, 0, FrameHeader(p.inFlight[0].f)))
  {
    var w := p.inFlight[0];
    var f := w.f;
    PrintOneMore(p.done, f);
    hide PrintAll, FrameHeader;
    assert p.inFlight == [w] && p.failed == [];
    OneFlying(w);
    AcceptedAfterDone(p.done, f, p.queue);
    var q := Completed(p, 0, FrameHeader(f));
    assert q.wire == PrintAll(q.done);
    if p.queue != [] {
      StartAlone(q.(queue := q.queue[1..]), q.queue[0]);
    }
  }

  lemma OrderlyFailed(p: Pump)
    requires Orderly(p) && |p.inFlight| == 1
    ensures Orderly(WriteFailed(p, 0))
  {
    var w := p.inFlight[0];
    assert p.inFlight == [w] && p.failed == [];
    OneFlying(w);
    assert p.done + [] + [w.f] + p.queue == p.done + ([] + [w.f]) + [] + p.queue;
  }

  /** The intended pump keeps that over every run. */
  lemma {:induction false} IntendedPumpIsOrderly(p: Pump, es: seq<PumpEvent>)
    requires p.guard == WithCurrent && Orderly(p) && Runs(p, es)
    ensures Orderly(Run(p, es))
    decreases |es|
  {
    if es != [] {
      OrderlyStep(p, es[0]);
      IntendedPumpIsOrderly(Step(p, es[0]), es[1..]);
    }
  }

  lemma InitialIsOrderly(g: Guard)
    ensures Orderly(Initial(g))
  {
  }

  // ---- the pump as written ----

  /** Every accepted frame is started at once, so the queue never holds anything between callbacks. */
  ghost predicate Eager(p: Pump) {
    && p.guard == AsWritten && p.queue == [] && p.started == p.accepted
    && |p.inFlight| == |p.started| - |p.done| - |p.failed|
  }

  lemma {:induction false} WrittenPumpIsEager(p: Pump, es: seq<PumpEvent>)
    requires Eager(p) && Runs(p, es)
    ensures Eager(Run(p, es))
    decreases |es|
  {
    if es != [] {
      WrittenPumpIsEager(Step(p, es[0]), es[1..]);
    }
  }

  function Submissions(fs: seq<Frame>): seq<PumpEvent> {
    seq(|fs|, i requires 0 <= i < |fs| => Begin(fs[i]))
  }

  function Headers(fs: seq<Frame>): seq<bytes> {
    seq(|fs|, i requires 0 <= i < |fs| => FrameHeader(fs[i]))
  }

  lemma HeadersCons(fs: seq<Frame>, k: nat)
    requires k < |fs|
    ensures Headers(fs[k..]) == [FrameHeader(fs[k])] + Headers(fs[k..][1..])
  {
  }

  lemma SubmitFirst(p: Pump, fs: seq<Frame>)
    requires Eager(p) && p.open && fs != []
    ensures var q, w := BeginWrite(p, fs[0]), Write(fs[0], [FrameHeader(fs[0])]);
            && Submissions(fs)[0] == Begin(fs[0]) && Submissions(fs)[1..] == Submissions(fs[1..])
            && Eager(q) && q.open && q.wire == p.wire
            && q.inFlight == See(p.inFlight, FrameHeader(fs[0])) + [w]
            && Flying(q.inFlight) == Flying(p.inFlight) + [fs[0]]
  {
  }

  /**
   * From p to q the writes of fs were added, and under every write the header buffer has held the headers of
   * those started after it.
   */
  ghost predicate Overlapping(p: Pump, fs: seq<Frame>, q: Pump) {
    && |q.inFlight| == |p.inFlight| + |fs| && Flying(q.inFlight) == Flying(p.inFlight) + fs
    && (forall k :: 0 <= k < |p.inFlight| ==> q.inFlight[k].seen == p.inFlight[k].seen + Headers(fs))
    && (forall k :: |p.inFlight| <= k < |q.inFlight| ==> q.inFlight[k].seen == Headers(fs[k - |p.inFlight|..]))
  }

  lemma OverlappingNothing(p: Pump)
    ensures Overlapping(p, [], p)
  {
    assert Headers([]) == [] && Flying(p.inFlight) + [] == Flying(p.inFlight);
    forall k | 0 <= k < |p.inFlight| ensures p.inFlight[k].seen == p.inFlight[k].seen + Headers([]) {
    }
  }

  lemma OverlappingStep(p: Pump, fs: seq<Frame>, next: Pump, q: Pump)
    requires fs != [] && Overlapping(next, fs[1..], q)
    requires next.inFlight == See(p.inFlight, FrameHeader(fs[0])) + [Write(fs[0], [FrameHeader(fs[0])])]
    requires Flying(next.inFlight) == Flying(p.inFlight) + [fs[0]]
    ensures Overlapping(p, fs, q)
  {
    hide FrameHeader;
    var n, tail, h := |p.inFlight|, fs[1..], FrameHeader(fs[0]);
    assert Flying(p.inFlight) + [fs[0]] + tail == Flying(p.inFlight) + fs;
    HeadersCons(fs, 0);
    assert fs[0..] == fs;
    forall k | 0 <= k < n ensures q.inFlight[k].seen == p.inFlight[k].seen + Headers(fs) {
      assert next.inFlight[k].seen == p.inFlight[k].seen + [h];
      Regroup(p.inFlight[k].seen, [h], Headers(tail));
    }
    forall k | n <= k < |q.inFlight| ensures q.inFlight[k].seen == Headers(fs[k - n..]) {
      if k > n {
        assert tail[k - (n + 1)..] == fs[k - n..];
      }
    }
  }

  /** n submissions in a row put n writes in flight at the same time. */
  lemma {:induction false} NoBoundAsWritten(p: Pump, fs: seq<Frame>)
    requires Eager(p) && p.open
    ensures Runs(p, Submissions(fs))
    ensures var q := Run(p, Submissions(fs));
            Overlapping(p, fs, q) && q.wire == p.wire
    decreases |fs|
  {
    if fs == [] {
      OverlappingNothing(p);
    } else {
      hide FrameHeader, See, Overlapping, BeginWrite;
      var next := BeginWrite(p, fs[0]);
      SubmitFirst(p, fs);
      NoBoundAsWritten(next, fs[1..]);
      OverlappingStep(p, fs, next, Run(next, Submissions(fs[1..])));
    }
  }

  lemma HeaderIn(h: bytes, fs: seq<Frame>, k: nat)
    requires k < |fs|
    ensures h in Headers(fs[k..]) <==> exists j :: k <= j < |fs| && FrameHeader(fs[j]) == h
  {
    hide FrameHeader;
    var hs := Headers(fs[k..]);
    if h in hs {
      var i :| 0 <= i < |hs| && hs[i] == h;
      assert fs[k..][i] == fs[k + i];
    }
    if j :| k <= j < |fs| && FrameHeader(fs[j]) == h {
      assert hs[j - k] == h;
    }
  }

  lemma SameHeader(h: bytes, f: Frame)
    ensures h + (f.payload + [FRAME_END]) == PrintFrame(f) <==> h == FrameHeader(f)
  {
    var tail := f.payload + [FRAME_END];
    if h + tail == FrameHeader(f) + tail {
      assert |h + tail| == |h| + |tail|;
      assert h == (h + tail)[..|h|] == (FrameHeader(f) + tail)[..|h|] == FrameHeader(f);
    }
  }

  lemma AppendedIs(wire: bytes, a: bytes, b: bytes)
    ensures wire + a == wire + b <==> a == b
  {
    if wire + a == wire + b {
      assert a == (wire + a)[|wire|..] == (wire + b)[|wire|..] == b;
    }
  }

  // ---- when a frame goes out under its own header ----

  /** Whenever the socket reads the header buffer, write k puts its own frame on the wire. */
  ghost predicate Sure(p: Pump, k: nat)
    requires k < |p.inFlight|
  {
    forall h :: Enabled(p, Done(k, h)) ==> Step(p, Done(k, h)).wire == p.wire + PrintFrame(p.inFlight[k].f)
  }

  predicate OwnHeader(w: Write) {
    forall h <- w.seen :: h == FrameHeader(w.f)
  }

  /** So it does if and only if the buffer has held nothing but the header of its frame. */
  lemma SureIffOwn(p: Pump, k: nat)
    requires k < |p.inFlight|
    ensures Sure(p, k) <==> OwnHeader(p.inFlight[k])
  {
    hide FrameHeader, PrintFrame;
    var w := p.inFlight[k];
    forall h | Enabled(p, Done(k, h))
      ensures Step(p, Done(k, h)).wire == p.wire + PrintFrame(w.f) <==> h == FrameHeader(w.f)
    {
      SameHeader(h, w.f);
      AppendedIs(p.wire, h + (w.f.payload + [FRAME_END]), PrintFrame(w.f));
    }
    forall h | h in w.seen ensures Enabled(p, Done(k, h)) {
    }
  }

  /** Of the frames started, the one of write k. */
  function StartOf(p: Pump, k: nat): int
    requires k < |p.inFlight|
  {
    |p.started| - |p.inFlight[k].seen|
  }

  /** Under every write the buffer has held the headers of its own frame and of all frames started since. */
  ghost predicate Tracked(p: Pump) {
    forall k :: 0 <= k < |p.inFlight| ==>
      && 0 <= StartOf(p, k) < |p.started| && p.started[StartOf(p, k)] == p.inFlight[k].f
      && p.inFlight[k].seen == Headers(p.started[StartOf(p, k)..])
  }

  lemma TrackedStart(p: Pump, f: Frame)
    requires Tracked(p)
    ensures Tracked(Start(p, f))
  {
    hide FrameHeader;
    var q, n, h := Start(p, f), |p.inFlight|, FrameHeader(f);
    forall k | 0 <= k < |q.inFlight|
      ensures 0 <= StartOf(q, k) < |q.started| && q.started[StartOf(q, k)] == q.inFlight[k].f
      ensures q.inFlight[k].seen == Headers(q.started[StartOf(q, k)..])
    {
      if k < n {
        var i := StartOf(p, k);
        assert q.inFlight[k].seen == p.inFlight[k].seen + [h] && q.inFlight[k].f == p.inFlight[k].f;
        assert q.started[i..] == p.started[i..] + [f];
        assert Headers(q.started[i..]) == Headers(p.started[i..]) + [h];
      } else {
        assert q.inFlight[k] == Write(f, [h]) && q.started[|p.started|..] == [f];
        assert Headers([f]) == [h];
      }
    }
  }

  lemma TrackedStep(p: Pump, e: PumpEvent)
    requires Tracked(p) && Enabled(p, e)
    ensures Tracked(Step(p, e))
  {
    hide FrameHeader, Start, Headers;
    match e {
      case Begin(f) =>
        if p.open && (p.queue == [] && (p.guard == WithCurrent ==> p.current.None?)) {
          var q := [] + [f];
          TrackedStart(p.(accepted := p.accepted + [f], queue := q[1..]), f);
        }
      case Done(k, header) =>
        TrackedRemove(p, Completed(p, k, header), k);
        var q := Completed(p, k, header);
        if q.queue != [] {
          TrackedStart(q.(queue := q.queue[1..]), q.queue[0]);
        }
      case Failed(k) => TrackedRemove(p, WriteFailed(p, k), k);
      case Closed =>
    }
  }

  lemma TrackedRemove(p: Pump, q: Pump, k: nat)
    requires Tracked(p) && k < |p.inFlight| && q.inFlight == Remove(p.inFlight, k) && q.started == p.started
    ensures Tracked(q)
  {
    hide Headers;
    forall i | 0 <= i < |q.inFlight|
      ensures 0 <= StartOf(q, i) < |q.started| && q.started[StartOf(q, i)] == q.inFlight[i].f
      ensures q.inFlight[i].seen == Headers(q.started[StartOf(q, i)..])
    {
      var j := if i < k then i else i + 1;
      assert q.inFlight[i] == p.inFlight[j] && StartOf(q, i) == StartOf(p, j);
    }
  }

  lemma {:induction false} RunsTracked(p: Pump, es: seq<PumpEvent>)
    requires Tracked(p) && Runs(p, es)
    ensures Tracked(Run(p, es))
    decreases |es|
  {
    if es != [] {
      TrackedStep(p, es[0]);
      RunsTracked(Step(p, es[0]), es[1..]);
    }
  }

  /**
   * On every run, with either guard, a write is sure to put its own frame on the wire if and only if every frame
   * started since has the same header.
   */
  lemma {:induction false} HeaderOverwritten(p: Pump, es: seq<PumpEvent>, k: nat)
    requires Tracked(p) && Runs(p, es) && k < |Run(p, es).inFlight|
    ensures var q := Run(p, es);
            && 0 <= StartOf(q, k) < |q.started| && q.started[StartOf(q, k)] == q.inFlight[k].f
            && (Sure(q, k)
                <==> forall j :: StartOf(q, k) < j < |q.started| ==>
                       FrameHeader(q.started[j]) == FrameHeader(q.inFlight[k].f))
  {
    hide FrameHeader, Step;
    RunsTracked(p, es);
    var q := Run(p, es);
    var i := StartOf(q, k);
    SureIffOwn(q, k);
    forall h ensures h in q.inFlight[k].seen <==> exists j :: i <= j < |q.started| && FrameHeader(q.started[j]) == h {
      HeaderIn(h, q.started, i);
    }
    forall j | i < j < |q.started| ensures FrameHeader(q.started[j]) in q.inFlight[k].seen {
    }
  }

  /**
   * Of frames submitted back to back, frame k is sure to go out as itself if and only if every later one has its
   * header.
   */
  lemma HeaderInARow(p: Pump, fs: seq<Frame>, k: nat)
    requires Eager(p) && p.open && k < |fs|
    ensures Runs(p, Submissions(fs))
    ensures var q, i := Run(p, Submissions(fs)), |p.inFlight| + k;
            && i < |q.inFlight| && q.inFlight[i].f == fs[k] && q.wire == p.wire
            && (Sure(q, i) <==> forall j :: k < j < |fs| ==> FrameHeader(fs[j]) == FrameHeader(fs[k]))
  {
    hide FrameHeader, Step;
    NoBoundAsWritten(p, fs);
    var q, i := Run(p, Submissions(fs)), |p.inFlight| + k;
    assert Flying(q.inFlight)[i] == fs[k];
    SureIffOwn(q, i);
    forall h ensures h in q.inFlight[i].seen <==> exists j :: k <= j < |fs| && FrameHeader(fs[j]) == h {
      HeaderIn(h, fs, k);
    }
    forall j | k < j < |fs| ensures FrameHeader(fs[j]) in q.inFlight[i].seen {
    }
  }

  /** Every write in flight is sure to put its own frame on the wire. */
  ghost predicate AllSure(p: Pump) {
    forall k :: 0 <= k < |p.inFlight| ==> Sure(p, k)
  }

  ghost predicate AllOwn(p: Pump) {
    forall k :: 0 <= k < |p.inFlight| ==> OwnHeader(p.inFlight[k])
  }

  lemma AllSureIffOwn(p: Pump)
    ensures AllSure(p) <==> AllOwn(p)
  {
    hide Sure, OwnHeader;
    forall k | 0 <= k < |p.inFlight| ensures Sure(p, k) <==> OwnHeader(p.inFlight[k]) {
      SureIffOwn(p, k);
    }
  }

  /** In every state of the run. */
  ghost predicate SureThroughout(p: Pump, es: seq<PumpEvent>)
    requires Runs(p, es)
    decreases |es|
  {
    AllSure(p) && (es != [] ==> SureThroughout(Step(p, es[0]), es[1..]))
  }

  /** The frame, if it is submitted to an open pump, has the header of all writes in flight. */
  predicate Matches(p: Pump, e: PumpEvent) {
    e.Begin? && p.open ==>
      forall k :: 0 <= k < |p.inFlight| ==> FrameHeader(e.f) == FrameHeader(p.inFlight[k].f)
  }

  predicate MatchThroughout(p: Pump, es: seq<PumpEvent>)
    requires Runs(p, es)
    decreases |es|
  {
    es != [] ==> Matches(p, es[0]) && MatchThroughout(Step(p, es[0]), es[1..])
  }

  lemma OwnStart(p: Pump, f: Frame)
    requires AllOwn(p)
    ensures AllOwn(Start(p, f))
       <==> forall k :: 0 <= k < |p.inFlight| ==> FrameHeader(f) == FrameHeader(p.inFlight[k].f)
  {
    hide FrameHeader;
    var q, n, h := Start(p, f), |p.inFlight|, FrameHeader(f);
    forall k | 0 <= k < n ensures OwnHeader(q.inFlight[k]) <==> h == FrameHeader(p.inFlight[k].f) {
      assert q.inFlight[k].seen == p.inFlight[k].seen + [h] && q.inFlight[k].f == p.inFlight[k].f;
      assert h in q.inFlight[k].seen;
    }
    assert q.inFlight[n] == Write(f, [h]) && OwnHeader(q.inFlight[n]);
  }

  lemma OwnStep(p: Pump, e: PumpEvent)
    requires Eager(p) && AllOwn(p) && Enabled(p, e)
    ensures AllOwn(Step(p, e)) <==> Matches(p, e)
  {
    hide FrameHeader, Start, OwnHeader;
    match e {
      case Begin(f) =>
        if p.open {
          var q := [] + [f];
          OwnStart(p.(accepted := p.accepted + [f], queue := q[1..]), f);
        }
      case Done(k, header) =>
      case Failed(k) =>
      case Closed =>
    }
  }

  /**
   * As written, over every run: in every state every write is sure to put its own frame on the wire, if and only
   * if every frame submitted has the header of all writes in flight at that moment.
   */
  lemma {:induction false} HeadersCleanIff(p: Pump, es: seq<PumpEvent>)
    requires Eager(p) && AllSure(p) && Runs(p, es)
    ensures SureThroughout(p, es) <==> MatchThroughout(p, es)
    decreases |es|
  {
    hide AllSure, AllOwn, Matches;
    if es != [] {
      var q := Step(p, es[0]);
      AllSureIffOwn(p);
      AllSureIffOwn(q);
      OwnStep(p, es[0]);
      WrittenPumpIsEager(p, [es[0]]);
      assert Run(p, [es[0]]) == q;
      if AllSure(q) {
        HeadersCleanIff(q, es[1..]);
      } else {
        NotSure(q, es[1..]);
      }
    }
  }

  lemma NotSure(p: Pump, es: seq<PumpEvent>)
    requires Runs(p, es) && !AllSure(p)
    ensures !SureThroughout(p, es)
  {
  }

  /** Then the wire is the print of the completed frames, in the order in which they complete. */
  lemma {:induction false} CleanWire(p: Pump, es: seq<PumpEvent>)
    requires Eager(p) && p.wire == PrintAll(p.done) && Runs(p, es) && SureThroughout(p, es)
    ensures Run(p, es).wire == PrintAll(Run(p, es).done)
    decreases |es|
  {
    if es != [] {
      CleanStep(p, es[0]);
      WrittenPumpIsEager(p, [es[0]]);
      assert Run(p, [es[0]]) == Step(p, es[0]);
      CleanWire(Step(p, es[0]), es[1..]);
    }
  }

  lemma CleanStep(p: Pump, e: PumpEvent)
    requires Eager(p) && p.wire == PrintAll(p.done) && AllSure(p) && Enabled(p, e)
    ensures Step(p, e).wire == PrintAll(Step(p, e).done)
  {
    hide PrintAll, PrintFrame, FrameHeader;
    if e.Done? {
      assert Sure(p, e.k);
      PrintOneMore(p.done, p.inFlight[e.k].f);
    }
  }

  /** At most one write in flight in every state of the run. */
  predicate OneAtATime(p: Pump, es: seq<PumpEvent>)
    requires Runs(p, es)
    decreases |es|
  {
    |p.inFlight| <= 1 && (es != [] ==> OneAtATime(Step(p, es[0]), es[1..]))
  }

  /** No frame is submitted to an open pump while a write is in flight. */
  predicate NeverBusy(p: Pump, es: seq<PumpEvent>)
    requires Runs(p, es)
    decreases |es|
  {
    es != [] ==>
      (es[0].Begin? && p.open ==> p.inFlight == []) && NeverBusy(Step(p, es[0]), es[1..])
  }

  /** As written, the bound of one holds over a run exactly when nothing is submitted during a write. */
  lemma {:induction false} OneAtATimeIffNeverBusy(p: Pump, es: seq<PumpEvent>)
    requires Eager(p) && |p.inFlight| <= 1 && Runs(p, es)
    ensures OneAtATime(p, es) <==> NeverBusy(p, es)
    decreases |es|
  {
    if es != [] {
      var q := Step(p, es[0]);
      WrittenPumpIsEager(p, [es[0]]);
      assert Run(p, [es[0]]) == q;
      if |q.inFlight| <= 1 {
        OneAtATimeIffNeverBusy(q, es[1..]);
      }
    }
  }

  /** The same pump with the guard that looks at the current frame too. */
  function Intended(p: Pump): Pump { p.(guard := WithCurrent) }

  /** Such runs are runs of the intended pump, state for state: all it promises holds for them. */
  lemma {:induction false} NeverBusyIsIntended(p: Pump, es: seq<PumpEvent>)
    requires Eager(p) && Orderly(p) && Runs(p, es) && NeverBusy(p, es)
    ensures Runs(Intended(p), es) && Run(Intended(p), es) == Intended(Run(p, es))
    ensures Orderly(Run(p, es))
    decreases |es|
  {
    if es != [] {
      var q := Step(p, es[0]);
      WrittenPumpIsEager(p, [es[0]]);
      assert Run(p, [es[0]]) == q;
      assert Step(Intended(p), es[0]) == Intended(q);
      OrderlyStep(Intended(p), es[0]);
      NeverBusyIsIntended(q, es[1..]);
    }
  }

  /** Once closed the written pump starts nothing, whatever is submitted or completes. */
  lemma {:induction false} ClosedStartsNothing(p: Pump, es: seq<PumpEvent>)
    requires Eager(p) && !p.open && Runs(p, es)
    ensures var q := Run(p, es);
            !q.open && q.started == p.started && q.accepted == p.accepted
    decreases |es|
  {
    if es != [] {
      ClosedStartsNothing(Step(p, es[0]), es[1..]);
    }
  }
}
