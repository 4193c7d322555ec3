/** From method objects to bytes on a stream and back. */
module EndToEnd {
  import opened Bytes
  import opened Streams
  import opened FieldTable
  import opened TableCodec
  import opened TableTheorems
  import opened MethodCodec
  import opened MethodStreams
  import opened TableStreams
  import opened Framing
  import opened FrameObjects
  import opened Unwritten

  /** create_from_method() when the payload buffer has the size of the bytes written. */
  function MethodFrameOf(spec: Schema, channel: uint16, m: Method): Frame
    requires Belongs(spec, m)
  {
    Frame(MethodFrame, channel, EncodeMethod(spec, m))
  }

  /** A method sent on a channel. */
  datatype Sent = Sent(channel: uint16, m: Method)

  /**
   * The frames create_from_method() may return: a payload of the computed size that starts with the bytes
   * written. Those the method does not reach stay as allocated, and can hold anything.
   */
  ghost predicate MayBuild(spec: Schema, s: Sent, f: Frame)
    requires Belongs(spec, s.m)
  {
    && (forall k :: 0 <= k < |s.m.args| ==> ArgWritable(s.m.args[k]))
    && f.ftype == MethodFrame && f.channel == s.channel
    && |f.payload| == Wrap32(SizeMethod(spec, s.m)) && EncodeMethod(spec, s.m) <= f.payload
  }

  /**
   * The buffer is sized first and then written through a stream that cannot grow. None is an exception:
   * a string too long to write, or a full buffer.
   */
  method CreateFromMethod(spec: Schema, channel: uint16, m: Method) returns (r: Option<Frame>)
    requires Belongs(spec, m)
    ensures r.None? <==>
              (exists k :: 0 <= k < |m.args| && !ArgWritable(m.args[k]))
              || |EncodeMethod(spec, m)| > Wrap32(SizeMethod(spec, m))
    ensures r.Some? ==> MayBuild(spec, Sent(channel, m), r.value)
  {
    var size := GetSerializedSize(spec, m);
    var buffer := new byte[size];
    var os := new OStream();
    var ok := WriteMethod(os, spec, m);
    if !ok {
      return None;
    }
    assert os.data == EncodeMethod(spec, m);
    var n := |os.data|;
    if n > size {
      return None;
    }
    forall k | 0 <= k < n {
      buffer[k] := os.data[k];
    }
    assert buffer[..n] == os.data;
    r := Some(Frame(MethodFrame, channel, buffer[..]));
  }

  lemma {:induction false} WritableWhenSmall(es: seq<Entry>)
    requires |EncodeEntries(es)| < TWO32
    ensures WritableEntries(es)
    decreases es, 1
  {
    if es != [] {
      WritableValueWhenSmall(es[0].value);
      WritableWhenSmall(es[1..]);
    }
  }

  lemma {:induction false} WritableValueWhenSmall(v: Value)
    requires |EncodeValue(v)| < TWO32
    ensures Writable(v)
    decreases v, 0
  {
    match v {
      case FieldTable(es) => WritableWhenSmall(es);
      case FieldArray(vs) => WritableElemsWhenSmall(vs);
      case _ =>
    }
  }

  lemma {:induction false} WritableElemsWhenSmall(vs: seq<Value>)
    requires |EncodeElems(vs)| < TWO32
    ensures WritableElems(vs)
    decreases vs, 1
  {
    if vs != [] {
      WritableValueWhenSmall(vs[0]);
      WritableElemsWhenSmall(vs[1..]);
    }
  }

  ghost predicate CanSend(spec: Schema, s: Sent) {
    Belongs(spec, s.m) && |EncodeMethod(spec, s.m)| < TWO32
  }

  ghost predicate SurvivesIn(spec: Schema, s: Sent)
    requires CanSend(spec, s)
  {
    AllSurvive(Domains(spec, s.m), s.m.args, 0)
  }

  lemma SurvivorsWritable(spec: Schema, s: Sent)
    requires CanSend(spec, s) && SurvivesIn(spec, s)
    ensures forall k :: 0 <= k < |s.m.args| ==> ArgWritable(s.m.args[k])
  {
    var ds := Domains(spec, s.m);
    forall k | 0 <= k < |s.m.args| ensures ArgWritable(s.m.args[k]) {
      assert Survives(ds[k], s.m.args[k]) && Fits(ds[k], s.m.args[k]);
      if s.m.args[k].Tab? {
        WritableWhenSmall(s.m.args[k].t);
      }
    }
  }

  /** The buffer has no gap and no overflow for arguments that survive. */
  lemma BufferFilledExactly(spec: Schema, s: Sent)
    requires CanSend(spec, s) && SurvivesIn(spec, s)
    ensures Wrap32(SizeMethod(spec, s.m)) == |EncodeMethod(spec, s.m)|
  {
    SurvivorsHaveNoSurplus(Domains(spec, s.m), s.m.args, 0);
    MethodSizeIff(spec, s.m);
  }

  /** What a receiver makes of a frame: method::read does not look at bytes it leaves over. */
  function Receive(spec: Schema, f: Frame): Option<Sent>
    requires SchemaFits(spec)
  {
    if f.ftype != MethodFrame then None
    else
      match DecodeMethod(spec, f.payload)
      case Err => None
      case Ok(m, _) => Some(Sent(f.channel, m))
  }

  function ReceiveAll(spec: Schema, fs: seq<Frame>): Option<seq<Sent>>
    requires SchemaFits(spec)
  {
    if fs == [] then Some([])
    else
      match Receive(spec, fs[0])
      case None => None
      case Some(s) =>
        match ReceiveAll(spec, fs[1..])
        case None => None
        case Some(more) => Some([s] + more)
  }

  function ReceiveStream(spec: Schema, bs: bytes): Option<seq<Sent>>
    requires SchemaFits(spec)
  {
    match ParseStream(bs)
    case None => None
    case Some(fs) => ReceiveAll(spec, fs)
  }

  /** A method that decodes to itself leaves nothing over. */
  lemma NothingLeftOver(spec: Schema, m: Method)
    requires SchemaFits(spec) && Belongs(spec, m)
    requires DecodeMethod(spec, EncodeMethod(spec, m)).Ok? && DecodeMethod(spec, EncodeMethod(spec, m)).value == m
    ensures DecodeMethod(spec, EncodeMethod(spec, m)) == Ok(m, [])
  {
    var ds := Domains(spec, m);
    var body := EncodeFrom(ds, m.args, 0);
    DecodeMethodHeader(spec, m.classId, m.methodId, body);
    assert m.args[0..] == m.args;
    ArgsConsume(ds, body, 0, m.args);
  }

  lemma ReceivePrint(spec: Schema, s: Sent)
    requires SchemaFits(spec) && CanSend(spec, s)
    ensures Receive(spec, MethodFrameOf(spec, s.channel, s.m)) == Some(s) <==> SurvivesIn(spec, s)
  {
    var bs := EncodeMethod(spec, s.m);
    MethodRoundTripIff(spec, s.m, []);
    assert bs + [] == bs;
    if Receive(spec, MethodFrameOf(spec, s.channel, s.m)) == Some(s) {
      NothingLeftOver(spec, s.m);
    }
  }

  /**
   * A frame that was built has no byte left unwritten and is received as the method sent, if and only if that
   * survives.
   */
  lemma ReceiveIff(spec: Schema, s: Sent, f: Frame)
    requires SchemaFits(spec) && Belongs(spec, s.m) && MayBuild(spec, s, f)
    ensures CanSend(spec, s)
    ensures |f.payload| == |EncodeMethod(spec, s.m)| && Receive(spec, f) == Some(s) <==> SurvivesIn(spec, s)
  {
    hide EncodeMethod, Receive, SizeMethod;
    ReceivePrint(spec, s);
    if SurvivesIn(spec, s) {
      BufferFilledExactly(spec, s);
    }
    if |f.payload| == |EncodeMethod(spec, s.m)| {
      assert f.payload == EncodeMethod(spec, s.m);
      assert f == MethodFrameOf(spec, s.channel, s.m);
    }
  }

  /** The sender can build a frame, and every frame it may build is received as the method sent. */
  ghost predicate Arrives(spec: Schema, s: Sent)
    requires SchemaFits(spec) && Belongs(spec, s.m)
  {
    && (exists f :: MayBuild(spec, s, f))
    && (forall f :: MayBuild(spec, s, f) ==> Receive(spec, f) == Some(s))
  }

  lemma SurvivorIsBuilt(spec: Schema, s: Sent)
    requires CanSend(spec, s) && SurvivesIn(spec, s)
    ensures MayBuild(spec, s, MethodFrameOf(spec, s.channel, s.m))
  {
    SurvivorsWritable(spec, s);
    BufferFilledExactly(spec, s);
  }

  /** A method arrives whatever the bytes hold that it leaves unwritten, if and only if it fits a frame and survives. */
  lemma {:induction false} AlwaysReceivedIff(spec: Schema, s: Sent)
    requires SchemaFits(spec) && Belongs(spec, s.m)
    ensures Arrives(spec, s) <==> CanSend(spec, s) && SurvivesIn(spec, s)
  {
    if CanSend(spec, s) && SurvivesIn(spec, s) {
      SurvivorIsBuilt(spec, s);
      forall f | MayBuild(spec, s, f) ensures Receive(spec, f) == Some(s) {
        ReceiveIff(spec, s, f);
      }
    }
    if Arrives(spec, s) {
      ArrivesComesBack(spec, s);
      AlwaysComesBackIff(spec, s.m, Wrap32(SizeMethod(spec, s.m)) - |EncodeMethod(spec, s.m)|);
    }
  }

  lemma ArrivesComesBack(spec: Schema, s: Sent)
    requires SchemaFits(spec) && Belongs(spec, s.m) && Arrives(spec, s)
    ensures CanSend(spec, s) && |EncodeMethod(spec, s.m)| <= Wrap32(SizeMethod(spec, s.m))
    ensures forall x: bytes ::
              |x| == Wrap32(SizeMethod(spec, s.m)) - |EncodeMethod(spec, s.m)| ==> ComesBack(spec, s.m, x)
  {
    hide SizeMethod, EncodeMethod, DecodeMethod;
    var f0 :| MayBuild(spec, s, f0);
    forall x: bytes | |x| == Wrap32(SizeMethod(spec, s.m)) - |EncodeMethod(spec, s.m)| ensures ComesBack(spec, s.m, x) {
      var f := Frame(MethodFrame, s.channel, EncodeMethod(spec, s.m) + x);
      assert MayBuild(spec, s, f);
    }
  }

  /**
   * A table with a decimal does not survive, and yet it arrives when the bytes left unwritten happen to hold an
   * entry under the same key: the prefix announces three bytes too many, and of two entries the first wins.
   */
  lemma ReceivedByChance(spec: Schema, s: Sent, e: Entry, f: Frame)
    requires SchemaFits(spec) && Belongs(spec, s.m) && Domains(spec, s.m) == [Table] && s.m.args == [Tab([e])]
    requires e.value.Decimal? && |e.key| == 1
    requires f == Frame(MethodFrame, s.channel, EncodeMethod(spec, s.m) + EncodeEntry(Entry(e.key, Void)))
    ensures MayBuild(spec, s, f) && Receive(spec, f) == Some(s)
    ensures CanSend(spec, s) && !SurvivesIn(spec, s)
  {
    var again := Entry(e.key, Void);
    DecimalRepeated(e, again);
    TableMethod(spec, s.m, [e], EncodeEntry(again));
    hide EncodeMethod, SizeMethod, EncodeEntry, EncodeEntries, SizeEntries, DecodeMethod, Exact, WritableEntries;
    WrapIdentity(19);
    assert Survives(Domains(spec, s.m)[0], s.m.args[0]) <==> Exact([e]);
  }

  // ---- sequences on one stream ----

  /** The frames a sender may build for a sequence of methods. */
  ghost predicate MayBuildAll(spec: Schema, ss: seq<Sent>, fs: seq<Frame>)
    requires forall s <- ss :: Belongs(spec, s.m)
  {
    |fs| == |ss| && forall i :: 0 <= i < |ss| ==> Belongs(spec, ss[i].m) && MayBuild(spec, ss[i], fs[i])
  }

  lemma {:induction false} ReceiveAllIff(spec: Schema, fs: seq<Frame>, ss: seq<Sent>)
    requires SchemaFits(spec)
    ensures ReceiveAll(spec, fs) == Some(ss)
       <==> |fs| == |ss| && forall i :: 0 <= i < |fs| ==> Receive(spec, fs[i]) == Some(ss[i])
  {
    hide Receive;
    if fs != [] && ss != [] {
      ReceiveAllIff(spec, fs[1..], ss[1..]);
      ReceiveAllStep(spec, fs, ss);
      if |fs| == |ss| && Receive(spec, fs[0]) == Some(ss[0])
         && forall i :: 0 <= i < |fs[1..]| ==> Receive(spec, fs[1..][i]) == Some(ss[1..][i]) {
        forall i | 0 <= i < |fs| ensures Receive(spec, fs[i]) == Some(ss[i]) {
          if i > 0 {
            assert Receive(spec, fs[1..][i - 1]) == Some(ss[1..][i - 1]);
          }
        }
      }
    }
  }

  lemma ReceiveAllStep(spec: Schema, fs: seq<Frame>, ss: seq<Sent>)
    requires SchemaFits(spec) && fs != [] && ss != []
    ensures ReceiveAll(spec, fs) == Some(ss)
       <==> Receive(spec, fs[0]) == Some(ss[0]) && ReceiveAll(spec, fs[1..]) == Some(ss[1..])
  {
    hide Receive;
    assert ss == [ss[0]] + ss[1..];
    if ReceiveAll(spec, fs) == Some(ss) {
      assert ReceiveAll(spec, fs).value[1..] == ss[1..];
    }
  }

  lemma StreamReceived(spec: Schema, ss: seq<Sent>, fs: seq<Frame>)
    requires SchemaFits(spec) && (forall s <- ss :: Belongs(spec, s.m)) && MayBuildAll(spec, ss, fs)
    ensures ReceiveStream(spec, PrintAll(fs)) == Some(ss)
       <==> forall i :: 0 <= i < |ss| ==> Receive(spec, fs[i]) == Some(ss[i])
  {
    hide Receive, EncodeMethod, SizeMethod;
    forall f | f in fs ensures Sendable(f) {
      var i :| 0 <= i < |fs| && fs[i] == f;
      assert MayBuild(spec, ss[i], fs[i]);
    }
    ParseStreamIff(PrintAll(fs), fs);
    ReceiveAllIff(spec, fs, ss);
  }

  /** The sender can build frames for all of them, and whatever it builds is received as the sequence sent. */
  ghost predicate AllArrive(spec: Schema, ss: seq<Sent>)
    requires SchemaFits(spec) && forall s <- ss :: Belongs(spec, s.m)
  {
    && (exists fs :: MayBuildAll(spec, ss, fs))
    && (forall fs :: MayBuildAll(spec, ss, fs) ==> ReceiveStream(spec, PrintAll(fs)) == Some(ss))
  }

  lemma OneArrives(spec: Schema, ss: seq<Sent>, i: nat)
    requires SchemaFits(spec) && (forall s <- ss :: Belongs(spec, s.m)) && i < |ss|
    ensures Belongs(spec, ss[i].m) && (AllArrive(spec, ss) ==> Arrives(spec, ss[i]))
  {
    hide Receive, ReceiveStream, MayBuild;
    assert ss[i] in ss;
    if AllArrive(spec, ss) {
      var fs :| MayBuildAll(spec, ss, fs);
      assert MayBuild(spec, ss[i], fs[i]);
      forall f | MayBuild(spec, ss[i], f) ensures Receive(spec, f) == Some(ss[i]) {
        var gs := fs[i := f];
        assert MayBuildAll(spec, ss, gs);
        StreamReceived(spec, ss, gs);
        assert gs[i] == f;
      }
    }
  }

  lemma SurvivorsArrive(spec: Schema, ss: seq<Sent>)
    requires SchemaFits(spec) && forall s <- ss :: CanSend(spec, s) && SurvivesIn(spec, s)
    ensures (forall s <- ss :: Belongs(spec, s.m)) && AllArrive(spec, ss)
  {
    hide Receive, ReceiveStream, MayBuild, SurvivesIn;
    forall i | 0 <= i < |ss| ensures CanSend(spec, ss[i]) && SurvivesIn(spec, ss[i]) {
      assert ss[i] in ss;
    }
    var fs := seq(|ss|, i requires 0 <= i < |ss| => MethodFrameOf(spec, ss[i].channel, ss[i].m));
    forall i | 0 <= i < |ss| ensures MayBuild(spec, ss[i], fs[i]) {
      SurvivorIsBuilt(spec, ss[i]);
    }
    assert MayBuildAll(spec, ss, fs);
    forall gs | MayBuildAll(spec, ss, gs) ensures ReceiveStream(spec, PrintAll(gs)) == Some(ss) {
      forall i | 0 <= i < |ss| ensures Receive(spec, gs[i]) == Some(ss[i]) {
        ReceiveIff(spec, ss[i], gs[i]);
      }
      StreamReceived(spec, ss, gs);
    }
  }

  /**
   * A sequence of methods, framed and concatenated on one stream, is received as the same sequence whatever the
   * bytes hold that were left unwritten, if and only if each one fits a frame, its short strings are free of NULs
   * and its tables are exact.
   */
  lemma {:induction false} StreamRoundTripIff(spec: Schema, ss: seq<Sent>)
    requires SchemaFits(spec) && forall s <- ss :: Belongs(spec, s.m)
    ensures AllArrive(spec, ss) <==> forall s <- ss :: CanSend(spec, s) && SurvivesIn(spec, s)
  {
    hide AllArrive, Arrives, SurvivesIn;
    if AllArrive(spec, ss) {
      forall s | s in ss ensures CanSend(spec, s) && SurvivesIn(spec, s) {
        var i :| 0 <= i < |ss| && ss[i] == s;
        OneArrives(spec, ss, i);
        AlwaysReceivedIff(spec, s);
      }
    }
    if forall s <- ss :: CanSend(spec, s) && SurvivesIn(spec, s) {
      SurvivorsArrive(spec, ss);
    }
  }

  /** What CreateFromMethod builds for a method that survives is its encoding. */
  method CreateSurvivor(spec: Schema, s: Sent) returns (f: Frame)
    requires CanSend(spec, s) && SurvivesIn(spec, s)
    ensures f == MethodFrameOf(spec, s.channel, s.m)
  {
    SurvivorsWritable(spec, s);
    BufferFilledExactly(spec, s);
    var r := CreateFromMethod(spec, s.channel, s.m);
    f := r.value;
    assert f.payload == EncodeMethod(spec, s.m);
  }

  // ---- the receiver ----

  /** method::read on a frame; None for an exception or a frame of another type. */
  method ReadMethodFrame(spec: Schema, f: Frame) returns (r: Option<Sent>)
    requires SchemaFits(spec)
    ensures r == Receive(spec, f)
  {
    if f.ftype != MethodFrame {
      return None;
    }
    var payload := new IStream(f.payload);
    var m := ReadMethod(payload, spec);
    r := if m.None? then None else Some(Sent(f.channel, m.value));
  }

  /** One frame off a stream, and the rest. */
  lemma ReceiveStreamStep(spec: Schema, done: seq<Sent>, bs: bytes)
    requires SchemaFits(spec)
    ensures Joined(done, ReceiveStream(spec, bs))
         == if bs == [] then Some(done)
            else match ParseFrame(bs)
                 case Err => None
                 case Ok(f, rest) =>
                   match Receive(spec, f)
                   case None => None
                   case Some(s) => Joined(done + [s], ReceiveStream(spec, rest))
  {
    hide Receive, ParseFrame;
    if bs == [] {
      assert done + [] == done;
    } else if ParseFrame(bs).Ok? && ParseStream(ParseFrame(bs).rest).Some? {
      var f, fs := ParseFrame(bs).value, ParseStream(ParseFrame(bs).rest).value;
      assert ([f] + fs)[1..] == fs;
      if Receive(spec, f).Some? && ReceiveAll(spec, fs).Some? {
        Regroup(done, [Receive(spec, f).value], ReceiveAll(spec, fs).value);
      }
    }
  }

  ghost function Joined(done: seq<Sent>, more: Option<seq<Sent>>): Option<seq<Sent>> {
    if more.None? then None else Some(done + more.value)
  }

  /** The builder on a whole stream, and method::read on every payload. */
  method ReceiveMethods(spec: Schema, builder: FrameBuilder, sock: IStream) returns (r: Option<seq<Sent>>)
    requires SchemaFits(spec) && builder.Valid() && sock.Valid() && sock.Good() && sock !in builder.Repr()
    modifies builder.Repr(), sock
    ensures r == ReceiveStream(spec, old(sock.Rest()))
  {
    hide Receive, ReceiveStream, ParseFrame;
    var done: seq<Sent> := [];
    ghost var start := sock.Rest();
    EmptyDone(ReceiveStream(spec, start));
    while true
      invariant builder.Valid() && sock.Valid() && sock.Good() && sock !in builder.Repr()
      invariant fresh(builder.Repr() - old(builder.Repr()))
      invariant Joined(done, ReceiveStream(spec, sock.Rest())) == ReceiveStream(spec, start)
      decreases |sock.Rest()|
    {
      ReceiveStreamStep(spec, done, sock.Rest());
      var end := sock.AtEnd();
      if end {
        return Some(done);
      }
      var f := ReadFrame(builder, sock);
      if f.None? {
        return None;
      }
      var s := ReadMethodFrame(spec, f.value);
      if s.None? {
        return None;
      }
      done := done + [s.value];
    }
  }

  lemma EmptyDone(more: Option<seq<Sent>>)
    ensures Joined([], more) == more
  {
    if more.Some? {
      assert [] + more.value == more.value;
    }
  }
}
