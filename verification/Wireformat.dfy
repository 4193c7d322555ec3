/** Fixed-width integers and length-prefixed strings on a stream (wireformat.h, string part of wireformat.cpp). */
module Wireformat {
  import opened Bytes
  import opened Bits
  import opened Streams

  // ---- what goes on the wire ----

  function EncodeShortString(s: bytes): bytes
    requires |s| <= 255
  {
    [|s|] + s
  }

  function DecodeShortString(bs: bytes): (r: Parsed<bytes>)
    ensures r.Ok? ==> |r.value| <= 255 && |bs| == 1 + |r.value| + |r.rest|
  {
    if bs == [] || |bs| - 1 < bs[0] then Err else Ok(bs[1..1 + bs[0]], bs[1 + bs[0]..])
  }

  /** The length is cast to 32 bits; writing fails before that loses anything. */
  function EncodeLongString(s: bytes): bytes {
    BE(|s|, 4) + s
  }

  function DecodeLongString(bs: bytes): (r: Parsed<bytes>)
    ensures r.Ok? ==> |r.value| < TWO32 && |bs| == 4 + |r.value| + |r.rest|
  {
    match ReadUint(bs, 4)
    case Err => Err
    case Ok(len, rest) =>
      Pow256Values();
      if |rest| < len then Err else Ok(rest[..len], rest[len..])
  }

  lemma ShortStringIff(bs: bytes, s: bytes, rest: bytes)
    ensures DecodeShortString(bs) == Ok(s, rest) <==> |s| <= 255 && bs == EncodeShortString(s) + rest
  {
    if DecodeShortString(bs) == Ok(s, rest) {
      assert bs == [bs[0]] + bs[1..1 + bs[0]] + bs[1 + bs[0]..];
    }
    if |s| <= 255 && bs == EncodeShortString(s) + rest {
      assert bs[0] == |s| && bs[1..1 + |s|] == s && bs[1 + |s|..] == rest;
    }
  }

  lemma LongStringIff(bs: bytes, s: bytes, rest: bytes)
    ensures DecodeLongString(bs) == Ok(s, rest) <==> |s| < TWO32 && bs == EncodeLongString(s) + rest
  {
    if DecodeLongString(bs) == Ok(s, rest) {
      LongStringSplit(bs);
    }
    if |s| < TWO32 && bs == EncodeLongString(s) + rest {
      LongStringJoin(s, rest);
    }
  }

  lemma LongStringSplit(bs: bytes)
    requires DecodeLongString(bs).Ok?
    ensures bs == EncodeLongString(DecodeLongString(bs).value) + DecodeLongString(bs).rest
  {
    hide BE, FromBE;
    var s, rest := DecodeLongString(bs).value, DecodeLongString(bs).rest;
    var tail := ReadUint(bs, 4).rest;
    assert tail == s + rest;
    ReadUintIff(bs, 4, |s|, tail);
    Regroup(BE(|s|, 4), s, rest);
  }

  lemma LongStringJoin(s: bytes, rest: bytes)
    requires |s| < TWO32
    ensures DecodeLongString(EncodeLongString(s) + rest) == Ok(s, rest)
  {
    Pow256Values();
    Regroup(BE(|s|, 4), s, rest);
    ReadUintIff(BE(|s|, 4) + (s + rest), 4, |s|, s + rest);
    assert (s + rest)[..|s|] == s && (s + rest)[|s|..] == rest;
  }

  // ---- integers ----

  method WriteUint8(o: OStream, i: uint8)
    modifies o
    ensures o.data == old(o.data) + BE(i, 1)
  {
    o.Write([i]);
    assert BE(i / 256, 0) == [];
  }

  method WriteUint16(o: OStream, i: uint16)
    modifies o
    ensures o.data == old(o.data) + BE(i, 2)
  {
    SwapIsBigEndian(i, 2);
    o.Write(LE(Swap16(i), 2));
  }

  method WriteUint32(o: OStream, i: uint32)
    modifies o
    ensures o.data == old(o.data) + BE(i, 4)
  {
    SwapIsBigEndian(i, 4);
    o.Write(LE(Swap32(i), 4));
  }

  method WriteUint64(o: OStream, i: uint64)
    modifies o
    ensures o.data == old(o.data) + BE(i, 8)
  {
    SwapIsBigEndian(i, 8);
    o.Write(LE(Swap64(i), 8));
  }

  /** Bytes stored in order into a host integer and then swapped are the big-endian value. */
  lemma SwapOfStored(bs: bytes)
    requires bs != []
    ensures FromLE(bs) < Pow256(|bs|) && SwapFrom(FromLE(bs), |bs|, 0) == FromBE(bs)
  {
    var n := |bs|;
    var v := FromBE(bs);
    BEOfFromBE(bs);
    LEOfFromLE(bs);
    SwapIsBigEndian(v, n);
    FromLEOfLE(SwapFrom(v, n, 0), n);
    ModUnique(SwapFrom(v, n, 0), Pow256(n), 0, SwapFrom(v, n, 0));
    assert FromLE(bs) == SwapFrom(v, n, 0);
    SwapTwice(v, n);
  }

  method ReadUint8(i: IStream) returns (r: Option<uint8>)
    requires i.Valid()
    modifies i
    ensures i.Agrees(ReadUint(old(i.Rest()), 1), r)
  {
    ghost var start := i.Rest();
    var ok, bs := i.Read(1);
    if !ok {
      return None;
    }
    assert start[..1] == [bs[0]];
    assert FromBE([bs[0]]) == bs[0] by {
      assert [bs[0]][..0] == [];
    }
    r := Some(bs[0]);
  }

  method ReadUint16(i: IStream) returns (r: Option<uint16>)
    requires i.Valid()
    modifies i
    ensures i.Agrees(ReadUint(old(i.Rest()), 2), r)
  {
    var ok, bs := i.Read(2);
    if !ok {
      return None;
    }
    SwapOfStored(bs);
    Pow256Values();
    BEOfFromBE(bs);
    r := Some(Swap16(FromLE(bs)));
  }

  method ReadUint32(i: IStream) returns (r: Option<uint32>)
    requires i.Valid()
    modifies i
    ensures i.Agrees(ReadUint(old(i.Rest()), 4), r)
  {
    var ok, bs := i.Read(4);
    if !ok {
      return None;
    }
    SwapOfStored(bs);
    Pow256Values();
    BEOfFromBE(bs);
    r := Some(Swap32(FromLE(bs)));
  }

  method ReadUint64(i: IStream) returns (r: Option<uint64>)
    requires i.Valid()
    modifies i
    ensures i.Agrees(ReadUint(old(i.Rest()), 8), r)
  {
    var ok, bs := i.Read(8);
    if !ok {
      return None;
    }
    SwapOfStored(bs);
    Pow256Values();
    BEOfFromBE(bs);
    r := Some(Swap64(FromLE(bs)));
  }

  // ---- strings ----

  /** False is the thrown logic_error; nothing is written then. */
  method WriteShortString(o: OStream, s: bytes) returns (ok: bool)
    modifies o
    ensures ok <==> |s| <= 255
    ensures ok ==> o.data == old(o.data) + EncodeShortString(s)
    ensures !ok ==> o.data == old(o.data)
  {
    if |s| > 255 {
      return false;
    }
    o.Write([|s|]);
    o.Write(s);
    ok := true;
  }

  lemma ShortStringNeeds(bs: bytes)
    ensures DecodeShortString(bs) == Err <==> bs == [] || |bs| - 1 < bs[0]
  {
  }

  lemma ShortStringRead(head: bytes, body: bytes, rest: bytes)
    requires |head| == 1 && |body| == head[0]
    ensures DecodeShortString(head + (body + rest)) == Ok(body, rest)
  {
    assert head + (body + rest) == EncodeShortString(body) + rest;
    ShortStringIff(head + (body + rest), body, rest);
  }

  method ReadShortString(i: IStream) returns (r: Option<bytes>)
    requires i.Valid()
    modifies i
    ensures i.Agrees(DecodeShortString(old(i.Rest())), r)
  {
    hide DecodeShortString;
    ghost var start := i.Rest();
    ShortStringNeeds(start);
    var ok, head := i.Read(1);
    if !ok {
      return None;
    }
    assert start[0] == head[0];
    var len := head[0];
    var body;
    ok, body := i.Read(len);
    if !ok {
      return None;
    }
    r := Some(body);
    ShortStringRead(head, body, i.Rest());
  }

  method WriteLongString(o: OStream, s: bytes) returns (ok: bool)
    modifies o
    ensures ok <==> |s| < TWO32
    ensures ok ==> o.data == old(o.data) + EncodeLongString(s)
    ensures !ok ==> o.data == old(o.data)
  {
    if |s| > TWO32 - 1 {
      return false;
    }
    WriteUint32(o, |s|);
    o.Write(s);
    ok := true;
  }

  const BUFFER_LENGTH: uint32 := 1024

  /** The body is fetched through a 1024-byte buffer; both counters stay within 32 bits. */
  method ReadLongString(i: IStream) returns (r: Option<bytes>)
    requires i.Valid()
    modifies i
    ensures i.Agrees(DecodeLongString(old(i.Rest())), r)
  {
    var length := ReadUint32(i);
    if length.None? {
      return None;
    }
    var len: uint32 := length.value;
    ghost var start := i.Rest();
    var s: bytes := [];
    var readBytes: uint32 := 0;
    while readBytes < len
      invariant i.Valid() && i.Good()
      invariant |s| == readBytes <= len
      invariant start == s + i.Rest()
    {
      var toRead: uint32 := if len - readBytes > BUFFER_LENGTH then BUFFER_LENGTH else len - readBytes;
      readBytes := readBytes + toRead;
      var ok, buffer := i.Read(toRead);
      if !ok {
        return None;
      }
      Regroup(s, buffer, i.Rest());
      s := s + buffer;
    }
    r := Some(s);
  }
}
