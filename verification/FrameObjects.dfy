/** The frame builder and the frame writer, with the buffers they share with the socket. */
module FrameObjects {
  import opened Bytes
  import opened Streams
  import opened Wireformat
  import opened Framing

  /** The payload and footer buffers of a gather write, and the writer's own header buffer. */
  datatype BufferSequence = BufferSequence(header: array<byte>, payload: bytes, footer: bytes)

  /** What a socket sends for a buffer sequence: the header is whatever its buffer holds then. */
  ghost function Gathered(s: BufferSequence): bytes
    reads s.header
  {
    s.header[..] + (s.payload + s.footer)
  }

  class FrameWriter {
    const header: array<byte>

    ghost predicate Valid() {
      header.Length == 7
    }

    constructor ()
      ensures Valid() && fresh(header)
    {
      header := new byte[7](_ => 0);
    }

    /** The header buffer is overwritten through a stream; payload and footer are only referred to. */
    method GetSequence(f: Frame) returns (s: BufferSequence)
      requires Valid()
      modifies header
      ensures s == BufferSequence(header, f.payload, [FRAME_END])
      ensures header[..] == FrameHeader(f) && Gathered(s) == PrintFrame(f)
    {
      var os := new OStream();
      WriteUint8(os, TypeCode(f.ftype));
      WriteUint16(os, f.channel);
      var size: uint32 := |f.payload| % TWO32;
      WriteUint32(os, size);
      HeaderWritten(f);
      forall k | 0 <= k < 7 {
        header[k] := os.data[k];
      }
      assert header[..] == os.data;
      s := BufferSequence(header, f.payload, [FRAME_END]);
    }
  }

  lemma HeaderWritten(f: Frame)
    ensures [] + BE(TypeCode(f.ftype), 1) + BE(f.channel, 2) + BE(|f.payload| % TWO32, 4) == FrameHeader(f)
  {
    Pow256Values();
    BEOfMod(|f.payload|, 4);
    assert BE(TypeCode(f.ftype) / 256, 0) == [];
    assert BE(TypeCode(f.ftype), 1) == [TypeCode(f.ftype)];
    Regroup([TypeCode(f.ftype)], BE(f.channel, 2), BE(|f.payload|, 4));
  }

  datatype Phase = Invalid | ValidHeader | ValidBoth

  /** create_frame() either builds a frame or throws: over a wrong end octet, or for want of a header. */
  datatype Built = Built(f: Frame) | BadEnd | NoHeader

  class FrameBuilder {
    var phase: Phase
    const header: array<byte>
    var ftype: FrameType
    var channel: uint16
    var body: array?<byte>
    const end: array<byte>

    ghost function Repr(): set<object>
      reads this
    {
      {this, header, end} + if body == null then {} else {body}
    }

    /** Once validated, the fields are those of the eight bytes in the header buffer. */
    ghost predicate Valid()
      reads this, header, end, body
    {
      && header.Length == 8 && end.Length == 1 && header != end && body != header && body != end
      && (phase == Invalid ==> body == null)
      && (phase == ValidBoth ==>
            body != null && body.Length == 0
            && ParseHead(header[..]) == Some(Head(ftype, channel, 0, FRAME_END)))
      && (phase == ValidHeader ==>
            body != null && 0 < body.Length < TWO32
            && ParseHead(header[..]) == Some(Head(ftype, channel, body.Length, body[0])))
    }

    constructor ()
      ensures Valid() && phase == Invalid && fresh(Repr())
    {
      phase := Invalid;
      header := new byte[8](_ => 0);
      ftype := MethodFrame;   // unset until a header is validated
      channel := 0;
      body := null;
      end := new byte[1](_ => 0);
    }

    method Reset()
      requires Valid()
      modifies this, header, end
      ensures Valid() && phase == Invalid && channel == 0
      ensures header[..] == [0, 0, 0, 0, 0, 0, 0, 0] && end[..] == [0]
    {
      phase := Invalid;
      forall k | 0 <= k < header.Length {
        header[k] := 0;
      }
      channel := 0;
      body := null;
      end[0] := 0;
    }

    /** The socket fills get_header_buffer(). */
    method FillHeader(bs: bytes)
      requires Valid() && phase == Invalid && |bs| == 8
      modifies header
      ensures Valid() && header[..] == bs
    {
      forall k | 0 <= k < 8 {
        header[k] := bs[k];
      }
    }

    /** False is a thrown exception: an unknown frame type, or an empty frame without end octet. */
    method ValidateHeader() returns (ok: bool)
      requires Valid()
      modifies this
      ensures Valid() && ok == (old(phase) != Invalid || ParseHead(header[..]).Some?)
      ensures ok ==> phase != Invalid && (old(phase) == Invalid ==> fresh(body))
      ensures !ok || old(phase) != Invalid ==> phase == old(phase) && body == old(body)
    {
      if phase != Invalid {
        return true;
      }
      ghost var h := header[..];
      var t := TypeOf(header[0]);
      if t.None? {
        return false;
      }
      Pow256Values();
      BEOfFromBE(header[1..3]);
      BEOfFromBE(header[3..7]);
      assert h[1..3] == header[1..3] && h[3..7] == header[3..7];
      var size := FromBE(header[3..7]);
      if size == 0 && header[7] != FRAME_END {
        ftype, channel := t.value, FromBE(header[1..3]);
        return false;
      }
      ftype, channel := t.value, FromBE(header[1..3]);
      body := new byte[size];
      if size == 0 {
        phase := ValidBoth;
      } else {
        body[0] := header[7];
        phase := ValidHeader;
      }
      ok := true;
    }

    /** Some(true) when the payload is not empty, None for an exception. */
    method IsBodyReadRequired() returns (r: Option<bool>)
      requires Valid()
      modifies this
      ensures Valid() && (old(phase) == Invalid && phase != Invalid ==> fresh(body))
      ensures old(phase) != Invalid ==> phase == old(phase) && body == old(body)
      ensures match r
              case None => old(phase) == Invalid && phase == Invalid && ParseHead(header[..]) == None
              case Some(b) =>
                && phase != Invalid && ParseHead(header[..]).Some?
                && b == (phase == ValidHeader) && b == (ParseHead(header[..]).value.size > 0)
    {
      var ok := ValidateHeader();
      r := if ok then Some(body.Length != 0) else None;
    }

    /** The socket fills get_body_buffer(): the payload from its second byte on, then the end octet. */
    method FillBody(bs: bytes)
      requires Valid() && phase == ValidHeader && |bs| == body.Length
      modifies body, end
      ensures Valid() && body[..] == [old(body[0])] + bs[..|bs| - 1] && end[0] == bs[|bs| - 1]
    {
      var n := |bs|;
      forall k | 1 <= k < n {
        body[k] := bs[k - 1];
      }
      end[0] := bs[n - 1];
      assert header[..] == old(header[..]) && body[0] == old(body[0]);
    }

    method CreateFrame() returns (r: Built)
      requires Valid()
      ensures r == match phase
                   case Invalid => NoHeader
                   case ValidBoth => Built(Frame(ftype, channel, []))
                   case ValidHeader =>
                     if end[0] == FRAME_END then Built(Frame(ftype, channel, body[..])) else BadEnd
    {
      match phase {
        case Invalid => r := NoHeader;
        case ValidHeader =>
          r := if end[0] != FRAME_END then BadEnd else Built(Frame(ftype, channel, body[..]));
        case ValidBoth =>
          r := Built(Frame(ftype, channel, body[..]));
      }
    }
  }

  /** The head the builder has validated. */
  ghost function HeadOf(b: FrameBuilder): Head
    requires b.Valid() && b.phase == ValidHeader
    reads b, b.header, b.end, b.body
  {
    Head(b.ftype, b.channel, b.body.Length, b.body[0])
  }

  method ReadBody(builder: FrameBuilder, sock: IStream) returns (r: Option<Frame>)
    requires builder.Valid() && builder.phase == ValidHeader && sock.Valid() && sock !in builder.Repr()
    modifies builder.body, builder.end, sock
    ensures builder.Valid()
    ensures sock.Agrees(ParseBody(old(HeadOf(builder)), old(sock.Rest())), r)
  {
    ghost var start, head := sock.Rest(), HeadOf(builder);
    var n := builder.body.Length;
    var ok, rest := sock.Read(n);
    if !ok {
      return None;
    }
    assert start[..n - 1] == rest[..n - 1] && start[n - 1] == rest[n - 1] && start[n..] == sock.Rest();
    builder.FillBody(rest);
    var built := builder.CreateFrame();
    r := if built.Built? then Some(built.f) else None;
  }

  /** read_frame(): one frame off the socket; None is an exception or the end of the stream. */
  method ReadFrame(builder: FrameBuilder, sock: IStream) returns (r: Option<Frame>)
    requires builder.Valid() && sock.Valid() && sock !in builder.Repr()
    modifies builder.Repr(), sock
    ensures builder.Valid() && fresh(builder.Repr() - old(builder.Repr()))
    ensures sock.Agrees(ParseFrame(old(sock.Rest())), r)
  {
    hide ParseHead, ParseBody;
    ghost var start := sock.Rest();
    builder.Reset();
    var ok, head := sock.Read(8);
    if !ok {
      return None;
    }
    assert start[..8] == head && start[8..] == sock.Rest();
    builder.FillHeader(head);
    var required := builder.IsBodyReadRequired();
    if required.None? {
      return None;
    }
    if required.value {
      assert ParseHead(head) == Some(HeadOf(builder));
      r := ReadBody(builder, sock);
    } else {
      var built := builder.CreateFrame();
      r := if built.Built? then Some(built.f) else None;
    }
  }
}
