/** The connection manager's callbacks on its own fields, each proved to be one transition of the step machine. */
module ConnectionManager {
  import opened Bytes
  import opened Streams
  import opened MethodCodec
  import opened MethodStreams
  import opened Framing
  import opened FrameObjects
  import opened EndToEnd
  import opened WritePump
  import opened Connection

  /** The asynchronous read that has been started and not completed. */
  datatype PendingRead = NoRead | HeaderPending | BodyPending

  class Manager {
    const spec: Schema
    const builder: FrameBuilder
    const writer: FrameWriter
    var open: bool
    var channels: seq<Slot>
    var writeQueue: seq<Frame>
    var currentWriteFrame: Option<Frame>
    var pending: PendingRead
    var status: Status
    /** Writes in flight, and history; its other components are not used. */
    ghost var log: Conn

    ghost predicate Valid()
      reads this, builder, builder.header, builder.end, builder.body
    {
      && HasChannelMethods(spec)
      && builder.Valid() && writer.Valid() && writer.header !in builder.Repr()
      && (pending == HeaderPending ==> builder.phase == Invalid)
      && (pending == BodyPending ==> builder.phase == ValidHeader)
      && |channels| > 0 && log.pump.guard == AsWritten
    }

    ghost function Pumped(): Pump
      reads this, writer.header
    {
      log.pump.(open := open, queue := writeQueue, current := currentWriteFrame, header := writer.header[..])
    }

    ghost function Reads(): Reading
      requires Valid()
      reads this, builder, builder.header, builder.end, builder.body
    {
      match pending
      case NoRead => Idle
      case HeaderPending => AwaitHeader
      case BodyPending => AwaitBody(HeadOf(builder))
    }

    ghost function View(): Conn
      requires Valid()
      reads this, builder, builder.header, builder.end, builder.body, writer.header
    {
      log.(slots := channels, pump := Pumped(), reading := Reads(), status := status)
    }

    /** start_async_read_loop() on a fresh manager. */
    constructor (spec: Schema)
      requires HasChannelMethods(spec)
      ensures Valid() && View() == Started(AsWritten) && this.spec == spec
    {
      this.spec := spec;
      builder := new FrameBuilder();
      writer := new FrameWriter();
      open := true;
      channels := [Slot(0, true, false)];
      writeQueue := [];
      currentWriteFrame := None;
      pending := HeaderPending;
      status := Running;
      log := Started(AsWritten);
      new;
      var h := [0, 0, 0, 0, 0, 0, 0];
      forall k | 0 <= k < 7 {
        writer.header[k] := h[k];
      }
      assert writer.header[..] == h;
    }

    // ---- writing ----

    /** Fills the shared header buffer and hands the gather list to the socket. */
    method StartWrite(f: Frame)
      requires Valid()
      modifies this`currentWriteFrame, this`log, writer.header
      ensures Valid() && View() == old(View()).(pump := Start(old(Pumped()), f))
    {
      currentWriteFrame := Some(f);
      var s := writer.GetSequence(f);
      ghost var header := FrameHeader(f);
      log := log.(pump := log.pump.(inFlight := See(log.pump.inFlight, header) + [Write(f, [header])],
                                    started := log.pump.started + [f]));
    }

    method BeginWriteFrame(f: Frame)
      requires Valid()
      modifies this`writeQueue, this`currentWriteFrame, this`log, writer.header
      ensures Valid() && View() == Submit(old(View()), f)
    {
      hide FrameHeader, ParseHead;
      if open {
        var isWriting := |writeQueue| > 0;
        writeQueue := writeQueue + [f];
        log := log.(pump := log.pump.(accepted := log.pump.accepted + [f]));
        if !isWriting {
          var next := writeQueue[0];
          writeQueue := writeQueue[1..];
          StartWrite(next);
        }
      }
    }

    /** Write k of those in flight has failed, or completed; the socket has found `header` in the header buffer. */
    method OnWriteFrame(failed: bool, ghost k: nat, ghost header: bytes)
      requires Valid() && status == Running
      requires Enabled(log.pump, if failed then Failed(k) else Done(k, header))
      modifies this, writer.header
      ensures Valid()
      ensures View() == Next(spec, old(View()), if failed then WriteError(k) else Written(k, header))
    {
      hide CloseFrom, ParseHead, FrameHeader, WriteDone, Remove;
      if !failed {
        WriteNext(k, header);
      } else {
        log := log.(pump := WritePump.WriteFailed(Pumped(), k));
        OnSocketClose();
      }
    }

    method WriteNext(ghost k: nat, ghost header: bytes)
      requires Valid() && Enabled(log.pump, Done(k, header))
      modifies this`writeQueue, this`currentWriteFrame, this`log, writer.header
      ensures Valid() && View() == old(View()).(pump := WriteDone(old(Pumped()), k, header))
    {
      hide ParseHead, FrameHeader, Remove;
      log := log.(pump := Completed(Pumped(), k, header));
      if |writeQueue| > 0 {
        var next := writeQueue[0];
        writeQueue := writeQueue[1..];
        StartWrite(next);
      } else {
        currentWriteFrame := None;
      }
    }

    // ---- closing ----

    method OnSocketClose()
      requires Valid() && status == Running
      modifies this`open, this`channels, this`status, this`log
      ensures Valid() && View() == OnClose(old(View()))
    {
      open := false;
      CloseChannels();
    }

    /** From the second slot on: lock the weak pointer, and close the handler if it is still there. */
    method CloseChannels()
      requires Valid() && status == Running
      modifies this`channels, this`status, this`log
      ensures Valid()
      ensures var r := CloseFrom(old(channels), 1);
              View() == old(View()).(slots := r.0, closeCalls := old(log.closeCalls) + r.1,
                                     status := if r.2 then Running else Uncaught)
    {
      hide ParseHead, FrameHeader;
      var it := 1;
      assert log.closeCalls == log.closeCalls + [];
      while it != |channels|
        invariant Valid() && 1 <= it <= |channels| && status == Running
        invariant var r, q := CloseFrom(old(channels), 1), CloseFrom(channels, it);
                  r.0 == q.0 && old(log.closeCalls) + r.1 == log.closeCalls + q.1 && r.2 == q.2
        invariant View() == old(View()).(slots := channels, closeCalls := log.closeCalls)
        decreases |channels| - it
      {
        var chan := channels[it];
        if chan.alive {
          if chan.closed {
            assert log.closeCalls + [] == log.closeCalls;
            status := Uncaught;
            return;
          }
          Regroup(log.closeCalls, [chan.id], CloseFrom(channels[it := chan.(closed := true)], it + 1).1);
          channels := channels[it := chan.(closed := true)];
          log := log.(closeCalls := log.closeCalls + [chan.id]);
        }
        it := it + 1;
      }
      assert log.closeCalls + [] == log.closeCalls;
    }

    // ---- channels ----

    /** None is the exception "Out of channels!". */
    method CreateNextChannel() returns (id: Option<uint16>)
      requires Valid()
      modifies this`channels
      ensures Valid()
      ensures match id
              case None => |old(channels)| >= MAX_CHANNELS && channels == old(channels)
              case Some(n) =>
                n == |old(channels)| < MAX_CHANNELS && channels == old(channels) + [Slot(n, true, false)]
    {
      var nextId := |channels|;
      if nextId > 65535 {
        return None;
      }
      channels := channels + [Slot(nextId, true, false)];
      id := Some(nextId);
    }

    method StartOpenChannel() returns (id: Option<uint16>)
      requires Valid()
      modifies this, writer.header
      ensures Valid() && View() == OpenChannel(spec, old(View()))
      ensures id == if |old(channels)| < MAX_CHANNELS then Some(|old(channels)|) else None
    {
      hide BeginWrite, CanSend, SurvivesIn, EncodeMethod, ParseHead;
      id := CreateNextChannel();
      if id.Some? {
        OpenCanBeSent(spec, id.value);
        var fr := CreateSurvivor(spec, Sent(id.value, OPEN_METHOD));
        BeginWriteFrame(fr);
      }
    }

    // ---- frames received ----

    method HandleDeadChannelFrame(f: Frame)
      requires Valid() && status == Running
      modifies this, writer.header
      ensures Valid() && pending == old(pending) && View() == HandleDead(spec, old(View()), f)
    {
      hide DecodeMethod, EncodeMethod, BeginWrite, CanSend, SurvivesIn, ParseHead;
      log := log.(dead := log.dead + [f]);
      if f.ftype == MethodFrame {
        var inner := new IStream(f.payload);
        var m := ReadMethod(inner, spec);
        if m.None? {
          status := Uncaught;
        } else if IsChannelClose(m.value) {
          CloseOkCanBeSent(spec, f.channel);
          var reply := CreateSurvivor(spec, Sent(f.channel, CLOSE_OK_METHOD));
          BeginWriteFrame(reply);
        }
      }
    }

    /** `o` is how process_frame() of the handler ends, if one is called. */
    method DispatchFrame(f: Frame, o: Outcome)
      requires Valid() && status == Running
      modifies this, writer.header
      ensures Valid() && pending == old(pending) && View() == Dispatch(spec, old(View()), f, o)
    {
      hide HandleDead, ParseHead;
      log := log.(dispatched := log.dispatched + [f]);
      if f.channel >= |channels| {
        HandleDeadChannelFrame(f);
        if status == Running {
          status := OutOfRange;
        }
      } else {
        var fh := channels[f.channel];
        if !fh.alive {
          HandleDeadChannelFrame(f);
        } else {
          log := log.(delivered := log.delivered + [Delivery(fh.id, f)]);
          if o == OtherException {
            status := Uncaught;
          }
        }
      }
    }

    method BeginFrameRead()
      requires Valid() && pending == NoRead
      modifies this`pending, builder, builder.header, builder.end
      ensures Valid() && View() == old(View()).(reading := AwaitHeader)
    {
      builder.Reset();
      pending := HeaderPending;
    }

    /** A frame is complete: build it, dispatch it and, unless an exception escapes, read the next one. */
    method FrameComplete(f: Frame, o: Outcome)
      requires Valid() && status == Running && pending == NoRead
      modifies this, writer.header, builder, builder.header, builder.end
      ensures Valid() && View() == TakeFrame(spec, old(View()), f, o)
    {
      hide Dispatch, ParseHead;
      DispatchFrame(f, o);
      if status == Running {
        BeginFrameRead();
      }
    }

    /** The socket has filled the header buffer with bs. */
    method OnFrameHeaderRead(bs: bytes, o: Outcome)
      requires Valid() && status == Running && pending == HeaderPending && |bs| == 8
      modifies this, writer.header, builder.Repr()
      ensures Valid() && View() == OnHeader(spec, old(View()), bs, o)
    {
      hide TakeFrame, ParseHead;
      builder.FillHeader(bs);
      log := log.(received := log.received + bs);
      pending := NoRead;
      var required := builder.IsBodyReadRequired();
      if required.None? {
        status := Uncaught;
      } else if required.value {
        pending := BodyPending;
      } else {
        var built := builder.CreateFrame();
        ReadingIsReset(spec, old(View()).(received := log.received), built.f, o);
        FrameComplete(built.f, o);
      }
    }

    /** The socket has filled the rest of the body and the end octet with bs. */
    method OnFrameBodyRead(bs: bytes, o: Outcome)
      requires Valid() && status == Running && pending == BodyPending && |bs| == builder.body.Length
      modifies this, writer.header, builder.Repr()
      ensures Valid() && View() == OnBody(spec, old(View()), bs, o)
    {
      hide TakeFrame, ParseHead, ParseBody;
      BodyParses(HeadOf(builder), bs);
      builder.FillBody(bs);
      log := log.(received := log.received + bs);
      pending := NoRead;
      var built := builder.CreateFrame();
      if built.Built? {
        ReadingIsReset(spec, old(View()).(received := log.received), built.f, o);
        FrameComplete(built.f, o);
      } else {
        status := Uncaught;
      }
    }

    /** A header or body read has failed. */
    method OnReadError()
      requires Valid() && status == Running && pending != NoRead
      modifies this
      ensures Valid() && View() == Next(spec, old(View()), ReadError)
    {
      hide CloseFrom, ParseHead, FrameHeader;
      pending := NoRead;
      OnSocketClose();
    }
  }

  lemma BodyParses(head: Head, bs: bytes)
    requires head.size == |bs| > 0
    ensures ParseBody(head, bs)
         == if bs[|bs| - 1] != FRAME_END then Err
            else Ok(Frame(head.ftype, head.channel, [head.last] + bs[..|bs| - 1]), [])
  {
  }

  lemma ReadingIsReset(spec: Schema, c: Conn, f: Frame, o: Outcome)
    requires HasChannelMethods(spec)
    ensures TakeFrame(spec, c.(reading := Idle), f, o) == TakeFrame(spec, c, f, o)
  {
    hide Dispatch;
  }

  /** The two methods the manager builds itself can always be framed. */
  lemma OpenCanBeSent(spec: Schema, channel: uint16)
    requires HasChannelMethods(spec)
    ensures CanSend(spec, Sent(channel, OPEN_METHOD)) && SurvivesIn(spec, Sent(channel, OPEN_METHOD))
  {
    var ds := Domains(spec, OPEN_METHOD);
    assert ds == [ShortStr];
    assert EncodeFrom(ds, OPEN_METHOD.args, 1) == [];
    assert EncodeFrom(ds, OPEN_METHOD.args, 0) == EncodeArg(ShortStr, Str([])) + [];
  }

  lemma CloseOkCanBeSent(spec: Schema, channel: uint16)
    requires HasChannelMethods(spec)
    ensures CanSend(spec, Sent(channel, CLOSE_OK_METHOD)) && SurvivesIn(spec, Sent(channel, CLOSE_OK_METHOD))
  {
    assert Domains(spec, CLOSE_OK_METHOD) == [];
  }

  /** The peer receives the frames the manager builds as channel.open and channel.close-ok on the right channel. */
  lemma RepliesAreReadable(spec: Schema, channel: uint16)
    requires HasChannelMethods(spec)
    ensures Receive(spec, OpenFrame(spec, channel)) == Some(Sent(channel, OPEN_METHOD))
    ensures Receive(spec, CloseOkFrame(spec, channel)) == Some(Sent(channel, CLOSE_OK_METHOD))
  {
    hide Receive, MethodFrameOf, CanSend, SurvivesIn, DecodeMethod, EncodeMethod;
    OpenCanBeSent(spec, channel);
    CloseOkCanBeSent(spec, channel);
    ReceivePrint(spec, Sent(channel, OPEN_METHOD));
    ReceivePrint(spec, Sent(channel, CLOSE_OK_METHOD));
  }
}
