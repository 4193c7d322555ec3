/** Closing passes over the channels, one by one and over every run of the connection manager. */
module ConnectionClosing {
  import opened MethodStreams
  import opened Framing
  import opened WritePump
  import opened Connection
  import opened ConnectionRuns

  /** The live handlers in slots i and up. */
  function LiveFrom(slots: seq<Slot>, i: nat): seq<int>
    requires i <= |slots|
    decreases |slots| - i
  {
    if i == |slots| then []
    else (if slots[i].alive then [slots[i].id] else []) + LiveFrom(slots, i + 1)
  }

  predicate NoneClosed(slots: seq<Slot>, i: nat)
    requires i <= |slots|
  {
    forall k :: i <= k < |slots| && slots[k].alive ==> !slots[k].closed
  }

  lemma {:induction false} LiveUnchanged(s: seq<Slot>, t: seq<Slot>, i: nat)
    requires i <= |s| == |t| && s[i..] == t[i..]
    ensures LiveFrom(s, i) == LiveFrom(t, i)
    decreases |s| - i
  {
    if i < |s| {
      assert s[i] == s[i..][0] == t[i..][0] == t[i];
      assert s[i + 1..] == s[i..][1..] == t[i..][1..] == t[i + 1..];
      LiveUnchanged(s, t, i + 1);
    }
  }

  /**
   * A pass runs to the end exactly when no live handler was closed before, and then calls each live one once, in
   * order.
   */
  lemma {:induction false} ClosePass(slots: seq<Slot>, i: nat)
    requires i <= |slots|
    ensures var r := CloseFrom(slots, i);
            && (r.2 <==> NoneClosed(slots, i))
            && r.1 <= LiveFrom(slots, i)
            && (r.2 ==> r.1 == LiveFrom(slots, i))
    decreases |slots| - i
  {
    if i < |slots| {
      if !slots[i].alive {
        ClosePass(slots, i + 1);
        assert NoneClosed(slots, i) <==> NoneClosed(slots, i + 1);
        assert [] + LiveFrom(slots, i + 1) == LiveFrom(slots, i + 1);
      } else if slots[i].closed {
        assert !NoneClosed(slots, i);
      } else {
        var s := slots[i := slots[i].(closed := true)];
        ClosePass(s, i + 1);
        LiveUnchanged(s, slots, i + 1);
        assert forall k :: i + 1 <= k < |slots| ==> s[k] == slots[k];
        assert NoneClosed(slots, i) <==> NoneClosed(s, i + 1);
      }
    }
  }

  /** A socket error calls close_async() once on each live handler in slots 1 and up, unless one was closed before. */
  lemma CloseCallsEachLiveHandlerOnce(c: Conn)
    requires |c.slots| > 0
    ensures var d := OnClose(c);
            && d.closeCalls == c.closeCalls + CloseFrom(c.slots, 1).1
            && (NoneClosed(c.slots, 1) ==> d.closeCalls == c.closeCalls + LiveFrom(c.slots, 1) && d.status == c.status)
            && (!NoneClosed(c.slots, 1) ==> d.status == Uncaught)
  {
    ClosePass(c.slots, 1);
  }

  predicate Numbered(slots: seq<Slot>) {
    forall k :: 0 <= k < |slots| ==> slots[k].id == k
  }

  predicate Distinct(xs: seq<int>) {
    forall a, b :: 0 <= a < b < |xs| ==> xs[a] != xs[b]
  }

  /** A pass marks as closed exactly the handlers it calls, none of which was closed before, and none twice. */
  lemma {:induction false} CloseMarks(slots: seq<Slot>, i: nat)
    requires i <= |slots| && Numbered(slots)
    ensures var r := CloseFrom(slots, i);
            && (forall k :: 0 <= k < |slots| ==> (r.0[k].closed <==> slots[k].closed || k in r.1))
            && (forall x <- r.1 :: i <= x < |slots| && !slots[x].closed)
            && Distinct(r.1)
    decreases |slots| - i
  {
    if i < |slots| {
      if !slots[i].alive {
        CloseMarks(slots, i + 1);
      } else if !slots[i].closed {
        CloseMarks(slots[i := slots[i].(closed := true)], i + 1);
      }
    }
  }

  /** Closed are the handlers that were called, once each, and none while the connection is open. */
  ghost predicate Closing(c: Conn) {
    && Numbered(c.slots)
    && (forall k :: 0 <= k < |c.slots| ==> (c.slots[k].closed <==> k in c.closeCalls))
    && (forall x <- c.closeCalls :: 0 < x < |c.slots|)
    && Distinct(c.closeCalls)
    && (c.pump.open ==> c.closeCalls == [])
  }

  lemma PassKeepsClosing(c: Conn)
    requires |c.slots| > 0 && Closing(c)
    ensures Closing(OnClose(c))
  {
    hide CloseFrom;
    CloseKeepsSlots(c.slots, 1);
    CloseMarks(c.slots, 1);
    var d := OnClose(c);
    var calls := CloseFrom(c.slots, 1).1;
    forall k | 0 <= k < |d.slots| ensures d.slots[k].closed <==> k in d.closeCalls {
    }
    forall a, b | 0 <= a < b < |d.closeCalls| ensures d.closeCalls[a] != d.closeCalls[b] {
      if a < |c.closeCalls| <= b {
        assert calls[b - |c.closeCalls|] in calls && c.closeCalls[a] in c.closeCalls;
      } else if |c.closeCalls| <= a {
        assert calls[a - |c.closeCalls|] != calls[b - |c.closeCalls|];
      }
    }
  }

  lemma ClosingStep(spec: Schema, c: Conn, e: Event)
    requires HasChannelMethods(spec) && Possible(c, e) && Closing(c)
    ensures Closing(Next(spec, c, e))
  {
    hide Dispatch, OnClose, ParseHead, ParseBody, OpenFrame;
    match e {
      case HeaderRead(bs, o) =>
        if ParseHead(bs).Some? {
          var head := ParseHead(bs).value;
          var d := c.(received := c.received + bs, reading := Idle);
          DispatchKeeps(spec, d, Frame(head.ftype, head.channel, []), o);
        }
      case BodyRead(bs, o) =>
        if ParseBody(c.reading.head, bs).Ok? {
          var d := c.(received := c.received + bs, reading := Idle);
          DispatchKeeps(spec, d, ParseBody(c.reading.head, bs).value, o);
        }
      case ReadError => PassKeepsClosing(c.(reading := Idle));
      case WriteError(k) => PassKeepsClosing(c.(pump := WriteFailed(c.pump, k)));
      case _ =>
    }
  }

  lemma {:induction false} RunsClosing(spec: Schema, c: Conn, es: seq<Event>)
    requires HasChannelMethods(spec) && IsRun(spec, c, es) && Closing(c)
    ensures Closing(After(spec, c, es))
    decreases |es|
  {
    if es != [] {
      ClosingStep(spec, c, es[0]);
      RunsClosing(spec, Next(spec, c, es[0]), es[1..]);
    }
  }

  /** The start state has all that runs keep. */
  lemma StartedIsSafe(g: Guard)
    ensures Routed(Started(g)) && Disposed(Started(g)) && Closing(Started(g))
  {
  }

  /** Over every run no handler is closed twice, and none before a socket error. */
  lemma NoHandlerIsClosedTwice(spec: Schema, g: Guard, es: seq<Event>)
    requires HasChannelMethods(spec) && IsRun(spec, Started(g), es)
    ensures var d := After(spec, Started(g), es);
            && Distinct(d.closeCalls)
            && (forall k :: 0 <= k < |d.slots| ==> (d.slots[k].closed <==> k in d.closeCalls))
            && (d.pump.open ==> d.closeCalls == [])
  {
    StartedIsSafe(g);
    RunsClosing(spec, Started(g), es);
  }

  predicate SocketError(e: Event) { e.ReadError? || e.WriteError? }

  /** A handler that an earlier pass has closed is still there. */
  predicate ClosedOneLives(c: Conn) {
    exists k :: 0 < k < |c.slots| && k in c.closeCalls && c.slots[k].alive
  }

  /**
   * After every run, the first socket error calls close_async() once on each live handler in slots 1 and up and the
   * thread goes on; a later one does the same for the handlers not called yet, unless one called before is still
   * there: then, and only then, the exception escapes.
   */
  lemma SocketErrorsOverRuns(spec: Schema, g: Guard, es: seq<Event>, e: Event)
    requires HasChannelMethods(spec) && IsRun(spec, Started(g), es)
    requires Possible(After(spec, Started(g), es), e) && SocketError(e)
    ensures var c := After(spec, Started(g), es);
            var d := Next(spec, c, e);
            && !d.pump.open
            && (d.status == Uncaught <==> ClosedOneLives(c))
            && (d.status == Running ==> d.closeCalls == c.closeCalls + LiveFrom(c.slots, 1))
            && (c.pump.open ==> d.status == Running && d.closeCalls == LiveFrom(c.slots, 1))
  {
    StartedIsSafe(g);
    RunsClosing(spec, Started(g), es);
    ErrorCloses(spec, After(spec, Started(g), es), e);
  }

  lemma ErrorCloses(spec: Schema, c: Conn, e: Event)
    requires HasChannelMethods(spec) && Possible(c, e) && SocketError(e) && Closing(c)
    ensures var d := Next(spec, c, e);
            && !d.pump.open
            && (d.status == Uncaught <==> ClosedOneLives(c)) && (d.status == Uncaught || d.status == Running)
            && (d.status == Running ==> d.closeCalls == c.closeCalls + LiveFrom(c.slots, 1))
            && (c.pump.open ==> d.status == Running && d.closeCalls == LiveFrom(c.slots, 1))
  {
    hide CloseFrom;
    ClosePass(c.slots, 1);
    assert NoneClosed(c.slots, 1) <==> !ClosedOneLives(c);
    assert [] + LiveFrom(c.slots, 1) == LiveFrom(c.slots, 1);
  }

  /** A dropped socket fails the read and the write of a fresh channel: the second of the two errors escapes. */
  lemma SecondErrorEscapes(spec: Schema, g: Guard)
    requires HasChannelMethods(spec)
    ensures var es := [ChannelOpened, ReadError, WriteError(0)];
            IsRun(spec, Started(g), es) && After(spec, Started(g), es).status == Uncaught
  {
    hide OpenFrame, FrameHeader, CloseFrom;
    var c := Started(g);
    var c1 := Next(spec, c, ChannelOpened);
    StartedIsSafe(g);
    ClosingStep(spec, c, ChannelOpened);
    assert c1.slots == [Slot(0, true, false), Slot(1, true, false)] && |c1.pump.inFlight| == 1;
    var c2 := Next(spec, c1, ReadError);
    ErrorCloses(spec, c1, ReadError);
    ClosingStep(spec, c1, ReadError);
    CloseKeepsSlots(c1.slots, 1);
    assert LiveFrom(c1.slots, 1) == [1] + LiveFrom(c1.slots, 2) == [1];
    assert 1 in c2.closeCalls && c2.slots[1].alive;
    var c3 := Next(spec, c2, WriteError(0));
    ErrorCloses(spec, c2, WriteError(0));
    EscapesAfter(spec, c, c1, c2, c3);
  }

  lemma EscapesAfter(spec: Schema, c: Conn, c1: Conn, c2: Conn, c3: Conn)
    requires HasChannelMethods(spec) && Possible(c, ChannelOpened) && c1 == Next(spec, c, ChannelOpened)
    requires Possible(c1, ReadError) && c2 == Next(spec, c1, ReadError)
    requires Possible(c2, WriteError(0)) && c3 == Next(spec, c2, WriteError(0))
    ensures var es := [ChannelOpened, ReadError, WriteError(0)];
            IsRun(spec, c, es) && After(spec, c, es) == c3
  {
    hide Possible, Next;
    var es := [ChannelOpened, ReadError, WriteError(0)];
    assert es[1..] == [ReadError, WriteError(0)] && es[1..][1..] == [WriteError(0)] && es[1..][1..][1..] == [];
    assert IsRun(spec, c3, []) && After(spec, c3, []) == c3;
    assert IsRun(spec, c2, [WriteError(0)]) && After(spec, c2, [WriteError(0)]) == c3;
    assert IsRun(spec, c1, es[1..]) && After(spec, c1, es[1..]) == c3;
  }
}
