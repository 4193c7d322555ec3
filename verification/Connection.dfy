/**
 * The connection manager as a step machine over its completions: frames read, writes completed, channels
 * opened, channel objects dying and socket errors, in any order.
 */
module Connection {
  import opened Bytes
  import opened MethodCodec
  import opened MethodStreams
  import opened Framing
  import opened EndToEnd
  import opened WritePump

  // ---- channel methods (AMQP 0-9-1, class 20) ----

  const CHANNEL: uint16 := 20
  const OPEN: uint16 := 10
  const CLOSE: uint16 := 40
  const CLOSE_OK: uint16 := 41

  /** The schema has the channel methods the manager builds itself. */
  ghost predicate HasChannelMethods(spec: Schema) {
    && SchemaFits(spec)
    && (CHANNEL, OPEN) in spec && spec[(CHANNEL, OPEN)] == [ShortStr]
    && (CHANNEL, CLOSE_OK) in spec && spec[(CHANNEL, CLOSE_OK)] == []
  }

  const OPEN_METHOD: Method := Method(CHANNEL, OPEN, [Str([])])
  const CLOSE_OK_METHOD: Method := Method(CHANNEL, CLOSE_OK, [])

  function OpenFrame(spec: Schema, channel: uint16): Frame
    requires HasChannelMethods(spec)
  {
    MethodFrameOf(spec, channel, OPEN_METHOD)
  }

  function CloseOkFrame(spec: Schema, channel: uint16): Frame
    requires HasChannelMethods(spec)
  {
    MethodFrameOf(spec, channel, CLOSE_OK_METHOD)
  }

  // ---- state ----

  /** A channel slot: a weak pointer to the handler that was given this id. */
  datatype Slot = Slot(id: int, alive: bool, closed: bool)

  /** The read the socket owes: none, the eight header bytes, or the rest of the frame they announced. */
  datatype Reading = Idle | AwaitHeader | AwaitBody(head: Head)

  /** Why the I/O thread has stopped: an exception nobody catches, or an index past the channel vector. */
  datatype Status = Running | Uncaught | OutOfRange

  datatype Delivery = Delivery(id: int, f: Frame)

  /** The last five components are history. */
  datatype Conn = Conn(
    slots: seq<Slot>,
    pump: Pump,
    reading: Reading,
    status: Status,
    received: bytes,
    dispatched: seq<Frame>,
    delivered: seq<Delivery>,
    dead: seq<Frame>,
    closeCalls: seq<int>)

  /** After start_async_read_loop(): channel 0 in slot 0 and one header read outstanding. */
  function Started(g: Guard): Conn {
    Conn([Slot(0, true, false)], Initial(g), AwaitHeader, Running, [], [], [], [], [])
  }

  // ---- transitions ----

  function Submit(c: Conn, f: Frame): Conn {
    c.(pump := BeginWrite(c.pump, f))
  }

  predicate IsChannelClose(m: Method) { m.classId == CHANNEL && m.methodId == CLOSE }

  function HandleDead(spec: Schema, c: Conn, f: Frame): Conn
    requires HasChannelMethods(spec)
  {
    var d := c.(dead := c.dead + [f]);
    if f.ftype != MethodFrame then d
    else
      match DecodeMethod(spec, f.payload)
      case Err => d.(status := Uncaught)
      case Ok(m, _) =>
        if IsChannelClose(m) then
          Submit(d, CloseOkFrame(spec, f.channel))
        else d
  }

  /** How process_frame() of a handler ends; only a connection_exception is caught. */
  datatype Outcome = Returned | ConnectionException | OtherException

  function Deliver(c: Conn, id: int, f: Frame, o: Outcome): Conn {
    var d := c.(delivered := c.delivered + [Delivery(id, f)]);
    if o == OtherException then d.(status := Uncaught) else d
  }

  /** There is no return after the out-of-range case: the vector is indexed all the same. */
  function Dispatch(spec: Schema, c: Conn, f: Frame, o: Outcome): Conn
    requires HasChannelMethods(spec)
  {
    var d := c.(dispatched := c.dispatched + [f]);
    if f.channel >= |d.slots| then
      var e := HandleDead(spec, d, f);
      if e.status == Running then e.(status := OutOfRange) else e
    else if d.slots[f.channel].alive then Deliver(d, d.slots[f.channel].id, f, o)
    else HandleDead(spec, d, f)
  }

  /** Dispatch and, unless an exception gets in between, ask for the next header. */
  function TakeFrame(spec: Schema, c: Conn, f: Frame, o: Outcome): Conn
    requires HasChannelMethods(spec)
  {
    var d := Dispatch(spec, c.(reading := Idle), f, o);
    if d.status == Running then d.(reading := AwaitHeader) else d
  }

  function OnHeader(spec: Schema, c: Conn, bs: bytes, o: Outcome): Conn
    requires HasChannelMethods(spec) && |bs| == 8
  {
    var d := c.(received := c.received + bs);
    match ParseHead(bs)
    case None => d.(reading := Idle, status := Uncaught)
    case Some(head) =>
      if head.size > 0 then d.(reading := AwaitBody(head))
      else TakeFrame(spec, d, Frame(head.ftype, head.channel, []), o)
  }

  function OnBody(spec: Schema, c: Conn, bs: bytes, o: Outcome): Conn
    requires HasChannelMethods(spec) && c.reading.AwaitBody? && c.reading.head.size == |bs| > 0
  {
    var d := c.(received := c.received + bs);
    match ParseBody(c.reading.head, bs)
    case Err => d.(reading := Idle, status := Uncaught)
    case Ok(f, _) => TakeFrame(spec, d, f, o)
  }

  /** close_async() on every live handler from slot i on; a second call on the same handler throws. */
  function CloseFrom(slots: seq<Slot>, i: nat): (r: (seq<Slot>, seq<int>, bool))
    requires i <= |slots|
    ensures |r.0| == |slots|
    decreases |slots| - i
  {
    if i == |slots| then (slots, [], true)
    else if !slots[i].alive then CloseFrom(slots, i + 1)
    else if slots[i].closed then (slots, [], false)
    else
      var r := CloseFrom(slots[i := slots[i].(closed := true)], i + 1);
      (r.0, [slots[i].id] + r.1, r.2)
  }

  /** on_socket_close() */
  function OnClose(c: Conn): Conn
    requires |c.slots| > 0
  {
    var r := CloseFrom(c.slots, 1);
    c.(pump := c.pump.(open := false), slots := r.0, closeCalls := c.closeCalls + r.1,
       status := if r.2 then c.status else Uncaught)
  }

  const MAX_CHANNELS: nat := 65536

  /** Out of ids, the exception ends up in the caller's future and nothing changes. */
  function OpenChannel(spec: Schema, c: Conn): Conn
    requires HasChannelMethods(spec)
  {
    var id := |c.slots|;
    if id >= MAX_CHANNELS then c
    else Submit(c.(slots := c.slots + [Slot(id, true, false)]), OpenFrame(spec, id))
  }

  datatype Event =
    | HeaderRead(bs: bytes, o: Outcome)
    | BodyRead(bs: bytes, o: Outcome)
    | ReadError
    | Submitted(f: Frame)
    | Written(k: nat, header: bytes)
    | WriteError(k: nat)
    | ChannelOpened
    | HandlerDied(i: nat)

  /** The channel a frame would be dispatched to; channel 0 answers every frame with an exception. */
  predicate OutcomePossible(channel: int, o: Outcome) { channel == 0 ==> o == OtherException }

  predicate Possible(c: Conn, e: Event) {
    && c.status == Running && |c.slots| > 0
    && match e
       case HeaderRead(bs, o) =>
         c.reading == AwaitHeader && |bs| == 8
         && (match ParseHead(bs) case None => true case Some(head) => OutcomePossible(head.channel, o))
       case BodyRead(bs, o) =>
         c.reading.AwaitBody? && c.reading.head.size == |bs| > 0 && OutcomePossible(c.reading.head.channel, o)
       case ReadError => c.reading != Idle
       case Written(k, header) => Enabled(c.pump, Done(k, header))
       case WriteError(k) => k < |c.pump.inFlight|
       case HandlerDied(i) => 0 < i < |c.slots|
       case _ => true
  }

  function Next(spec: Schema, c: Conn, e: Event): Conn
    requires HasChannelMethods(spec) && Possible(c, e)
  {
    match e
    case HeaderRead(bs, o) => OnHeader(spec, c, bs, o)
    case BodyRead(bs, o) => OnBody(spec, c, bs, o)
    case ReadError => OnClose(c.(reading := Idle))
    case Submitted(f) => Submit(c, f)
    case Written(k, header) => c.(pump := WriteDone(c.pump, k, header))
    case WriteError(k) => OnClose(c.(pump := WriteFailed(c.pump, k)))
    case ChannelOpened => OpenChannel(spec, c)
    case HandlerDied(i) => c.(slots := c.slots[i := c.slots[i].(alive := false)])
  }

  predicate IsRun(spec: Schema, c: Conn, es: seq<Event>)
    requires HasChannelMethods(spec)
    decreases |es|
  {
    es == [] || (Possible(c, es[0]) && IsRun(spec, Next(spec, c, es[0]), es[1..]))
  }

  function After(spec: Schema, c: Conn, es: seq<Event>): Conn
    requires HasChannelMethods(spec) && IsRun(spec, c, es)
    decreases |es|
  {
    if es == [] then c else After(spec, Next(spec, c, es[0]), es[1..])
  }
}
