/** The stream readers, writers and size counters of field tables, as the code runs them. */
module TableStreams {
  import opened Bytes
  import opened Streams
  import opened FieldTable
  import opened Wireformat
  import opened TableCodec
  import opened TableTheorems
  import opened FloatBits

  // ---- sizes, accumulated in 32 bits ----

  function Wrap32(n: nat): uint32 { n % TWO32 }

  lemma WrapSum(x: nat, y: nat)
    ensures Wrap32(Wrap32(x) + Wrap32(y)) == Wrap32(x + y)
    ensures Wrap32(Wrap32(x) + y) == Wrap32(x + y)
  {
    var a, b := x / TWO32, y / TWO32;
    var s := Wrap32(x) + Wrap32(y);
    ModUnique(x + y, TWO32, a + b + s / TWO32, s % TWO32);
    ModUnique(Wrap32(x) + y, TWO32, b + s / TWO32, s % TWO32);
  }

  method DataSize(v: Value) returns (size: uint32)
    ensures size == Wrap32(SizeData(v))
    decreases v, 0
  {
    match v {
      case Decimal(_, _) => size := Wrap32(SIZEOF_DECIMAL);
      case LongString(s) =>
        size := Wrap32(4 + Wrap32(|s|));
        WrapSum(|s|, 4);
      case FieldArray(vs) => size := ArraySize(vs);
      case FieldTable(es) => size := TableSize(es);
      case Void => size := Wrap32(0);
      case ByteArray(d) =>
        size := Wrap32(4 + Wrap32(|d|));
        WrapSum(|d|, 4);
      case _ => size := Wrap32(WidthOf(TagOf(v)));
    }
  }

  method ValueSize(v: Value) returns (size: uint32)
    ensures size == Wrap32(1 + SizeData(v))
    decreases v, 1
  {
    size := DataSize(v);
    WrapSum(SizeData(v), 1);
    size := Wrap32(size + 1);
  }

  method ArraySize(vs: seq<Value>) returns (size: uint32)
    ensures size == Wrap32(SizeElems(vs))
    decreases vs, 2
  {
    size := 0;
    for i := 0 to |vs|
      invariant Wrap32(size + SizeElems(vs[i..])) == Wrap32(SizeElems(vs))
    {
      var n := ValueSize(vs[i]);
      StepSize(size, 1 + SizeData(vs[i]), SizeElems(vs[i + 1..]));
      assert vs[i..][1..] == vs[i + 1..];
      size := Wrap32(size + n);
    }
    assert vs[|vs|..] == [];
    WrapIdentity(size);
  }

  lemma StepSize(size: uint32, n: nat, rest: nat)
    ensures Wrap32(Wrap32(size + Wrap32(n)) + rest) == Wrap32(size + (n + rest))
  {
    WrapSum(n, size);
    WrapSum(size + n, rest);
    WrapSum(size + Wrap32(n), rest);
  }

  lemma WrapIdentity(size: uint32)
    ensures Wrap32(size) == size && Wrap32(size + 0) == size
  {
    ModUnique(size, TWO32, 0, size);
  }

  method EntrySize(e: Entry) returns (size: uint32)
    ensures size == Wrap32(SizeEntry(e))
    decreases e, 1
  {
    size := Wrap32(1 + |e.key|);
    var n := ValueSize(e.value);
    WrapSum(1 + |e.key|, 1 + SizeData(e.value));
    size := Wrap32(size + n);
  }

  method TableSize(es: seq<Entry>) returns (size: uint32)
    ensures size == Wrap32(4 + SizeEntries(es))
    decreases es, 2
  {
    size := 4;
    for i := 0 to |es|
      invariant Wrap32(size + SizeEntries(es[i..])) == Wrap32(4 + SizeEntries(es))
    {
      var n := EntrySize(es[i]);
      StepSize(size, SizeEntry(es[i]), SizeEntries(es[i + 1..]));
      assert es[i..][1..] == es[i + 1..];
      size := Wrap32(size + n);
    }
    assert es[|es|..] == [];
    WrapIdentity(size);
  }

  // ---- writers: false is the logic_error of an over-long string ----

  lemma KeepLow32(n: nat)
    ensures BE(Wrap32(n), 4) == BE(n, 4)
  {
    BEOfMod(n, 4);
    Pow256Values();
  }

  method WriteTable(o: OStream, es: seq<Entry>) returns (ok: bool)
    modifies o
    ensures ok <==> WritableEntries(es)
    ensures ok ==> o.data == old(o.data) + EncodeTable(es)
    decreases es, 3
  {
    var size := TableSize(es);
    var prefix := Wrap32(size + TWO32 - 4);
    PrefixWritten(size, es);
    WriteUint32(o, prefix);
    ghost var start := o.data;
    for i := 0 to |es|
      invariant o.data + EncodeEntries(es[i..]) == start + EncodeEntries(es)
      invariant WritableEntries(es[i..]) == WritableEntries(es)
    {
      ghost var before := o.data;
      assert es[i..][1..] == es[i + 1..];
      ok := WriteTableEntry(o, es[i]);
      if !ok {
        return;
      }
      Regroup(before, EncodeEntry(es[i]), EncodeEntries(es[i + 1..]));
    }
    assert es[|es|..] == [];
    assert o.data + [] == o.data;
    Regroup(old(o.data), TablePrefix(es), EncodeEntries(es));
    ok := true;
  }

  lemma PrefixWritten(size: uint32, es: seq<Entry>)
    requires size == Wrap32(4 + SizeEntries(es))
    ensures BE(Wrap32(size + TWO32 - 4), 4) == TablePrefix(es)
  {
    var n := SizeEntries(es);
    WrapSum(4 + n, TWO32 - 4);
    ModUnique(n + TWO32, TWO32, n / TWO32 + 1, n % TWO32);
    KeepLow32(n);
  }

  method WriteTableEntry(o: OStream, e: Entry) returns (ok: bool)
    modifies o
    ensures ok <==> Writable(e.value)
    ensures ok ==> o.data == old(o.data) + EncodeEntry(e)
    decreases e, 1
  {
    ok := WriteShortString(o, e.key);
    ok := WriteTableValue(o, e.value);
    Regroup(old(o.data), EncodeShortString(e.key), EncodeValue(e.value));
  }

  method WriteTableValue(o: OStream, v: Value) returns (ok: bool)
    modifies o
    ensures ok <==> Writable(v)
    ensures ok ==> o.data == old(o.data) + EncodeValue(v)
    decreases v, 0
  {
    WriteTag(o, v);
    ghost var tagged := o.data;
    ok := true;
    match v {
      case LongString(s) =>
        ok := WriteLongString(o, s);
        Regroup(old(o.data), [TagOf(v)], EncodeLongString(s));
      case FieldArray(vs) =>
        var size := ArraySize(vs);
        KeepLow32(SizeElems(vs));
        WriteUint32(o, size);
        ok := WriteElems(o, vs);
        Regroup(tagged, BE(SizeElems(vs), 4), EncodeElems(vs));
        Regroup(old(o.data), [TagOf(v)], BE(SizeElems(vs), 4) + EncodeElems(vs));
      case FieldTable(es) =>
        ok := WriteTable(o, es);
        Regroup(old(o.data), [TagOf(v)], EncodeTable(es));
      case Void =>
      case ByteArray(d) =>
        o.Write(d);
        Regroup(old(o.data), [TagOf(v)], d);
      case Decimal(m, x) =>
        WriteUint8(o, m);
        WriteUint32(o, ToUnsigned(x, TWO32));
        DecimalBytesWritten(old(o.data), m, x);
      case _ =>
        WriteFixed(o, v);
        Regroup(old(o.data), [TagOf(v)], BE(BitsOf(v), WidthOf(TagOf(v))));
    }
  }

  lemma DecimalBytesWritten(start: bytes, m: uint8, x: int32)
    ensures start + [0x44] + BE(m, 1) + BE(ToUnsigned(x, TWO32), 4) == start + EncodeValue(Decimal(m, x))
  {
    assert BE(m / 256, 0) == [];
    assert [0x44] + [m] == [0x44, m];
  }

  method WriteTag(o: OStream, v: Value)
    modifies o
    ensures o.data == old(o.data) + [TagOf(v)]
  {
    WriteUint8(o, TagOf(v));
    assert BE(TagOf(v) / 256, 0) == [];
  }

  /** The types held in one integer. */
  method WriteFixed(o: OStream, v: Value)
    requires IsFixed(v)
    modifies o
    ensures o.data == old(o.data) + BE(BitsOf(v), WidthOf(TagOf(v)))
  {
    match v {
      case Boolean(b) => WriteUint8(o, if b then 1 else 0);
      case Int8(i) => WriteUint8(o, ToUnsigned(i, 256));
      case Int16(i) => WriteUint16(o, ToUnsigned(i, TWO16));
      case Int32(i) => WriteUint32(o, ToUnsigned(i, TWO32));
      case Int64(i) => WriteUint64(o, ToUnsigned(i, TWO64));
      case Float(f) => WriteUint32(o, f);
      case Double(d) => WriteUint64(o, d);
      case Timestamp(t) => WriteUint64(o, t);
    }
  }

  method WriteElems(o: OStream, vs: seq<Value>) returns (ok: bool)
    modifies o
    ensures ok <==> WritableElems(vs)
    ensures ok ==> o.data == old(o.data) + EncodeElems(vs)
    decreases vs, 2
  {
    for i := 0 to |vs|
      invariant o.data + EncodeElems(vs[i..]) == old(o.data) + EncodeElems(vs)
      invariant WritableElems(vs[i..]) == WritableElems(vs)
    {
      ghost var before := o.data;
      assert vs[i..][1..] == vs[i + 1..];
      ok := WriteTableValue(o, vs[i]);
      if !ok {
        return;
      }
      Regroup(before, EncodeValue(vs[i]), EncodeElems(vs[i + 1..]));
    }
    assert vs[|vs|..] == [];
    assert o.data + [] == o.data;
    ok := true;
  }

  // ---- readers: None is a thrown exception ----

  method ReadTable(i: IStream) returns (r: Option<seq<Entry>>)
    requires i.Valid()
    modifies i
    ensures i.Agrees(DecodeTable(old(i.Rest())), r)
    decreases |i.Rest()|, 0
  {
    var body := ReadLongString(i);
    if body.None? {
      return None;
    }
    var s := body.value;
    var inner := new IStream(s);
    var t: seq<Entry> := [];
    while true
      invariant inner.Valid() && inner.Good() && fresh(inner) && |inner.Rest()| <= |s|
      invariant i.Valid() && i.Good() && i.Rest() == DecodeLongString(old(i.Rest())).rest
      invariant match DecodeEntries(inner.Rest())
                case None => DecodeEntries(s) == None
                case Some(es) => DecodeEntries(s).Some? && InsertAll([], DecodeEntries(s).value) == InsertAll(t, es)
      decreases |inner.Rest()|
    {
      var end := inner.AtEnd();
      if end {
        return Some(t);
      }
      var e := ReadTableEntry(inner);
      if e.None? {
        return None;
      }
      t := Insert(t, e.value);
    }
  }

  method ReadTableEntry(i: IStream) returns (r: Option<Entry>)
    requires i.Valid()
    modifies i
    ensures i.Agrees(DecodeEntry(old(i.Rest())), r)
    decreases |i.Rest()|, 5
  {
    var name := ReadShortString(i);
    if name.None? {
      return None;
    }
    var value := ReadFieldValue(i);
    if value.None? {
      return None;
    }
    r := MakeEntry(name.value, value.value);
  }

  method ReadFieldValue(i: IStream) returns (r: Option<Value>)
    requires i.Valid()
    modifies i
    ensures i.Agrees(DecodeValue(old(i.Rest())), r)
    decreases |i.Rest()|, 4
  {
    ghost var start := i.Rest();
    var tag := ReadUint8(i);
    if tag.None? {
      return None;
    }
    FirstByte(start);
    r := ReadTagged(i, tag.value);
  }

  lemma FirstByte(bs: bytes)
    requires bs != []
    ensures ReadUint(bs, 1) == Ok(bs[0], bs[1..])
  {
    assert bs[..1] == [bs[0]];
    assert [bs[0]][..0] == [];
  }

  method ReadTagged(i: IStream, tag: byte) returns (r: Option<Value>)
    requires i.Valid() && i.Good()
    modifies i
    ensures i.Agrees(DecodeTagged(tag, old(i.Rest())), r)
    decreases |i.Rest()|, 3
  {
    if WidthOf(tag) != 0 {
      r := ReadFixed(i, tag);
    } else if tag == 0x44 {
      r := ReadDecimal(i);
    } else if tag == 0x53 {
      var s := ReadLongString(i);
      r := if s.None? then None else Some(LongString(s.value));
    } else if tag == 0x41 {
      r := ReadArray(i);
    } else if tag == 0x46 {
      var t := ReadTable(i);
      r := if t.None? then None else Some(FieldTable(t.value));
    } else if tag == 0x56 {
      r := Some(Void);
    } else if tag == 0x78 {
      var d := ReadBytes(i);
      r := if d.None? then None else Some(ByteArray(d.value));
    } else {
      r := None;
    }
  }

  method ReadFixed(i: IStream, tag: byte) returns (r: Option<Value>)
    requires i.Valid() && WidthOf(tag) != 0
    modifies i
    ensures i.Agrees(match ReadUint(old(i.Rest()), WidthOf(tag))
                     case Err => Err
                     case Ok(n, rest) => Ok(FromBits(tag, n), rest), r)
  {
    r := None;
    if tag == 0x74 || tag == 0x62 {
      var n := ReadUint8(i);
      if n.Some? {
        r := Some(if tag == 0x74 then Boolean(n.value != 0) else Int8(ToSigned(n.value, 256)));
      }
    } else if tag == 0x55 {
      var n := ReadUint16(i);
      if n.Some? {
        r := Some(Int16(ToSigned(n.value, TWO16)));
      }
    } else if tag == 0x49 || tag == 0x66 {
      var n := ReadUint32(i);
      if n.Some? {
        r := Some(if tag == 0x49 then Int32(ToSigned(n.value, TWO32)) else Float(n.value));
      }
    } else {
      var n := ReadUint64(i);
      if n.Some? {
        r := Some(if tag == 0x4C then Int64(ToSigned(n.value, TWO64))
                  else if tag == 0x64 then Double(ReadDouble(n.value))
                  else Timestamp(n.value));
      }
    }
  }

  method ReadDecimal(i: IStream) returns (r: Option<Value>)
    requires i.Valid()
    modifies i
    ensures i.Agrees(DecodeDecimal(old(i.Rest())), r)
  {
    var m := ReadUint8(i);
    if m.None? {
      return None;
    }
    var n := ReadUint32(i);
    if n.None? {
      return None;
    }
    r := Some(Decimal(m.value, ToSigned(n.value, TWO32)));
  }

  /** A length and then that many raw bytes in one read. */
  method ReadBytes(i: IStream) returns (r: Option<bytes>)
    requires i.Valid()
    modifies i
    ensures i.Agrees(DecodeLongString(old(i.Rest())), r)
  {
    var size := ReadUint32(i);
    if size.None? {
      return None;
    }
    var ok, data := i.Read(size.value);
    r := if ok then Some(data) else None;
  }

  /** The loop runs until eofbit is set, which only a failed read does: it never gets there. */
  method ReadArray(i: IStream) returns (r: Option<Value>)
    requires i.Valid()
    modifies i
    ensures i.Valid()
    ensures r == None && DecodeTagged(0x41, old(i.Rest())) == Err
    decreases |i.Rest()|, 2
  {
    ArrayNeverDecodes(i.Rest());
    var body := ReadLongString(i);
    if body.None? {
      return None;
    }
    var inner := new IStream(body.value);
    var vals: seq<Value> := [];
    while !inner.eofbit
      invariant inner.Valid() && inner.Good() && fresh(inner) && |inner.Rest()| <= |body.value|
      invariant i.Valid()
      decreases |inner.Rest()|
    {
      var v := ReadFieldValue(inner);
      if v.None? {
        return None;
      }
      vals := vals + [v.value];
    }
    assert false;
    r := Some(FieldArray(vals));
  }
}
