/** Frames on a byte stream: frame.cpp, frame_writer.cpp and frame_builder.cpp. */
module Framing {
  import opened Bytes
  import opened Streams

  /** Frame constants of AMQP 0-9-1, section 4.2.3. */
  const FRAME_END: byte := 206

  datatype FrameType = MethodFrame | HeaderFrame | BodyFrame | HeartbeatFrame

  function TypeCode(t: FrameType): byte {
    match t
    case MethodFrame => 1
    case HeaderFrame => 2
    case BodyFrame => 3
    case HeartbeatFrame => 8
  }

  /** get_frame_type() throws on any other value. */
  function TypeOf(code: byte): Option<FrameType> {
    if code == 1 then Some(MethodFrame)
    else if code == 2 then Some(HeaderFrame)
    else if code == 3 then Some(BodyFrame)
    else if code == 8 then Some(HeartbeatFrame)
    else None
  }

  datatype Frame = Frame(ftype: FrameType, channel: uint16, payload: bytes)

  // ---- printing ----

  /** The seven header bytes; the payload size is cut to 32 bits. */
  function FrameHeader(f: Frame): (h: bytes)
    ensures |h| == 7
  {
    [TypeCode(f.ftype)] + (BE(f.channel, 2) + BE(|f.payload|, 4))
  }

  function PrintFrame(f: Frame): bytes {
    FrameHeader(f) + (f.payload + [FRAME_END])
  }

  function PrintAll(fs: seq<Frame>): bytes {
    if fs == [] then [] else PrintFrame(fs[0]) + PrintAll(fs[1..])
  }

  // ---- parsing ----

  /** The eight bytes read first: the eighth is the end octet or the first payload byte. */
  datatype Head = Head(ftype: FrameType, channel: uint16, size: uint32, last: byte)

  function ParseHead(h: bytes): Option<Head>
    requires |h| == 8
  {
    match TypeOf(h[0])
    case None => None
    case Some(t) =>
      Pow256Values();
      BEOfFromBE(h[1..3]);
      BEOfFromBE(h[3..7]);
      var head := Head(t, FromBE(h[1..3]), FromBE(h[3..7]), h[7]);
      if head.size == 0 && head.last != FRAME_END then None else Some(head)
  }

  /** What one round of the read loop makes of a stream: eight bytes, then the rest of the payload and the end octet. */
  function ParseFrame(bs: bytes): (r: Parsed<Frame>)
    ensures r.Ok? ==> |r.rest| + 8 <= |bs|
  {
    if |bs| < 8 then Err
    else
      match ParseHead(bs[..8])
      case None => Err
      case Some(head) =>
        if head.size == 0 then Ok(Frame(head.ftype, head.channel, []), bs[8..])
        else ParseBody(head, bs[8..])
  }

  function ParseBody(head: Head, bs: bytes): (r: Parsed<Frame>)
    requires head.size > 0
    ensures r.Ok? ==> |r.rest| <= |bs|
  {
    if |bs| < head.size || bs[head.size - 1] != FRAME_END then Err
    else Ok(Frame(head.ftype, head.channel, [head.last] + bs[..head.size - 1]), bs[head.size..])
  }

  /** The longest run of complete frames at the front of a stream. */
  function ParseAll(bs: bytes): seq<Frame>
    decreases |bs|
  {
    match ParseFrame(bs)
    case Err => []
    case Ok(f, rest) => [f] + ParseAll(rest)
  }

  /** The frames of a stream that is made of complete frames only. */
  function ParseStream(bs: bytes): Option<seq<Frame>>
    decreases |bs|
  {
    if bs == [] then Some([])
    else
      match ParseFrame(bs)
      case Err => None
      case Ok(f, rest) =>
        match ParseStream(rest)
        case None => None
        case Some(fs) => Some([f] + fs)
  }

  // ---- the two are inverse ----

  predicate Sendable(f: Frame) { |f.payload| < TWO32 }

  lemma HeadIff(h: bytes, head: Head)
    requires |h| == 8
    ensures ParseHead(h) == Some(head)
       <==> h == [TypeCode(head.ftype)] + (BE(head.channel, 2) + BE(head.size, 4)) + [head.last]
            && (head.size == 0 ==> head.last == FRAME_END)
  {
    Pow256Values();
    if ParseHead(h) == Some(head) {
      HeadSplit(h, head);
    }
    if h == [TypeCode(head.ftype)] + (BE(head.channel, 2) + BE(head.size, 4)) + [head.last] {
      HeadJoin(h, head);
    }
  }

  lemma HeadSplit(h: bytes, head: Head)
    requires |h| == 8 && ParseHead(h) == Some(head)
    ensures h == [TypeCode(head.ftype)] + (BE(head.channel, 2) + BE(head.size, 4)) + [head.last]
  {
    BEOfFromBE(h[1..3]);
    BEOfFromBE(h[3..7]);
    assert h == [h[0]] + (h[1..3] + h[3..7]) + [h[7]];
  }

  lemma HeadJoin(h: bytes, head: Head)
    requires |h| == 8
    requires h == [TypeCode(head.ftype)] + (BE(head.channel, 2) + BE(head.size, 4)) + [head.last]
    ensures ParseHead(h) == Some(head) <==> (head.size == 0 ==> head.last == FRAME_END)
  {
    Pow256Values();
    assert h[0] == TypeCode(head.ftype) && h[1..3] == BE(head.channel, 2);
    assert h[3..7] == BE(head.size, 4) && h[7] == head.last;
    FromBEOfBE(head.channel, 2);
    FromBEOfBE(head.size, 4);
    ModUnique(head.channel, TWO16, 0, head.channel);
    ModUnique(head.size, TWO32, 0, head.size);
  }

  /**
   * A frame is parsed off a stream exactly when its payload is below 2^32 bytes and the stream starts with its
   * print.
   */
  lemma ParseFrameIff(bs: bytes, f: Frame, rest: bytes)
    ensures ParseFrame(bs) == Ok(f, rest) <==> Sendable(f) && bs == PrintFrame(f) + rest
  {
    if ParseFrame(bs) == Ok(f, rest) {
      ParsedIsPrinted(bs);
    }
    if Sendable(f) && bs == PrintFrame(f) + rest {
      PrintedParses(f, rest);
    }
  }

  lemma ParsedIsPrinted(bs: bytes)
    requires ParseFrame(bs).Ok?
    ensures Sendable(ParseFrame(bs).value) && bs == PrintFrame(ParseFrame(bs).value) + ParseFrame(bs).rest
  {
    hide ParseHead, BE;
    var head := ParseHead(bs[..8]).value;
    var tail := bs[8..];
    HeadIff(bs[..8], head);
    assert bs == bs[..8] + tail;
    var h := [TypeCode(head.ftype)] + (BE(head.channel, 2) + BE(head.size, 4));
    if head.size == 0 {
      assert [] + [FRAME_END] == [FRAME_END];
    } else {
      assert tail == tail[..head.size - 1] + [FRAME_END] + tail[head.size..];
      RegroupBody(h, [head.last], tail[..head.size - 1], [FRAME_END], tail[head.size..]);
    }
  }

  lemma RegroupBody(h: bytes, a: bytes, b: bytes, c: bytes, d: bytes)
    ensures h + a + (b + c + d) == h + (a + b + c) + d
  {
  }

  lemma PrintedParses(f: Frame, rest: bytes)
    requires Sendable(f)
    ensures ParseFrame(PrintFrame(f) + rest) == Ok(f, rest)
  {
    var bs := PrintFrame(f) + rest;
    var n := |f.payload|;
    var body := f.payload + [FRAME_END];
    var head := Head(f.ftype, f.channel, n, body[0]);
    assert bs == FrameHeader(f) + [body[0]] + (body[1..] + rest);
    assert bs[..8] == FrameHeader(f) + [body[0]] && bs[8..] == body[1..] + rest;
    HeadJoin(bs[..8], head);
    if n > 0 {
      var tail := body[1..] + rest;
      assert tail[..n - 1] == f.payload[1..] && tail[n - 1] == FRAME_END && tail[n..] == rest;
      assert f.payload == [f.payload[0]] + f.payload[1..];
    } else {
      assert body[1..] + rest == rest;
    }
  }

  /** Parsing is the exact inverse of printing on streams of frames, in both directions. */
  lemma {:induction false} ParseStreamIff(bs: bytes, fs: seq<Frame>)
    ensures ParseStream(bs) == Some(fs) <==> (forall f <- fs :: Sendable(f)) && bs == PrintAll(fs)
    decreases |bs|
  {
    if ParseStream(bs) == Some(fs) && bs != [] {
      var f, rest := ParseFrame(bs).value, ParseFrame(bs).rest;
      ParseFrameIff(bs, f, rest);
      ParseStreamIff(rest, fs[1..]);
      assert fs == [f] + fs[1..];
    }
    if (forall f <- fs :: Sendable(f)) && bs == PrintAll(fs) && fs != [] {
      assert fs[0] in fs;
      ParseFrameIff(bs, fs[0], PrintAll(fs[1..]));
      ParseStreamIff(PrintAll(fs[1..]), fs[1..]);
      assert fs == [fs[0]] + fs[1..];
    }
  }

  lemma ParseAllStep(bs: bytes, f: Frame, rest: bytes)
    requires ParseFrame(bs) == Ok(f, rest)
    ensures ParseAll(bs) == [f] + ParseAll(rest)
  {
  }

  lemma {:induction false} ParseAllAfterPrint(fs: seq<Frame>, tail: bytes)
    requires forall f <- fs :: Sendable(f)
    ensures ParseAll(PrintAll(fs) + tail) == fs + ParseAll(tail)
  {
    hide ParseFrame, PrintFrame, ParseAll;
    if fs == [] {
      assert [] + tail == tail;
      assert [] + ParseAll(tail) == ParseAll(tail);
    } else {
      var f, more := fs[0], PrintAll(fs[1..]) + tail;
      assert f in fs;
      Regroup(PrintFrame(f), PrintAll(fs[1..]), tail);
      ParseFrameIff(PrintFrame(f) + more, f, more);
      ParseAllStep(PrintFrame(f) + more, f, more);
      ParseAllAfterPrint(fs[1..], tail);
      assert fs + ParseAll(tail) == [f] + (fs[1..] + ParseAll(tail));
    }
  }

  lemma {:induction false} PrintAllAppend(fs: seq<Frame>, gs: seq<Frame>)
    ensures PrintAll(fs + gs) == PrintAll(fs) + PrintAll(gs)
  {
    if fs == [] {
      assert [] + gs == gs;
      assert [] + PrintAll(gs) == PrintAll(gs);
    } else {
      assert (fs + gs)[1..] == fs[1..] + gs;
      PrintAllAppend(fs[1..], gs);
      Regroup(PrintFrame(fs[0]), PrintAll(fs[1..]), PrintAll(gs));
    }
  }
}
