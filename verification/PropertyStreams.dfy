/** The generated property classes run field by field on streams. */
module PropertyStreams {
  import opened Bytes
  import opened Streams
  import opened Wireformat
  import opened TableStreams
  import opened MethodCodec
  import opened MethodStreams
  import opened Properties

  class PropertySet {
    const classId: uint16
    const fields: seq<PropField>
    var weight: uint16
    var bodySize: uint64
    var flags: seq<bool>
    var values: seq<Arg>

    function View(): Props
      reads this
    {
      Props(weight, bodySize, flags, values)
    }

    predicate Valid()
      reads this
    {
      Holds(fields, View())
    }

    constructor (classId: uint16, fields: seq<PropField>, p: Props)
      requires Holds(fields, p)
      ensures Valid() && View() == p && this.classId == classId && this.fields == fields
    {
      this.classId, this.fields := classId, fields;
      weight, bodySize, flags, values := p.weight, p.bodySize, p.flags, p.values;
    }

    /** The flags of table fields are refreshed, then header, flag set and every set field are written. */
    method Write(o: OStream)
      requires Valid()
      modifies this`flags, o
      ensures Valid() && View() == old(View()).(flags := Refreshed(fields, old(View())))
      ensures o.data == old(o.data) + EncodeContent(classId, fields, old(View()))
    {
      RefreshFlags();
      WriteUint16(o, classId);
      WriteUint16(o, weight);
      WriteUint64(o, bodySize);
      FlagsRoundTrip(flags);
      WriteUint16(o, FlagsToNat(flags));
      WriteFields(o, old(View()));
      ContentBytes(old(o.data), classId, fields, old(View()));
    }

    method RefreshFlags()
      requires Valid()
      modifies this`flags
      ensures Valid() && flags == Refreshed(fields, old(View()))
    {
      ghost var p := View();
      for i := 0 to |fields|
        invariant Valid() && View() == p.(flags := flags)
        invariant Refresh(fields, p, i, flags) == Refreshed(fields, p)
      {
        if fields[i].domain == Table {
          flags := flags[fields[i].position := values[i].t == []];
        }
      }
    }

    method WriteFields(o: OStream, ghost p: Props)
      requires Holds(fields, p) && View() == p.(flags := Refreshed(fields, p))
      modifies o
      ensures o.data == old(o.data) + EncodeFields(fields, p, 0)
    {
      for i := 0 to |fields|
        invariant o.data + EncodeFields(fields, p, i) == old(o.data) + EncodeFields(fields, p, 0)
      {
        RefreshedIsSet(fields, p, i);
        if IsSet(fields, View(), i) {
          ghost var before := o.data;
          var ok := WriteArg(o, fields[i].domain, values[i]);
          Regroup(before, EncodeArg(fields[i].domain, values[i]), EncodeFields(fields, p, i + 1));
        }
      }
      assert o.data + [] == o.data;
    }

    /** get_serialized_size(); is_set() does not look at the flags of table fields. */
    method GetSerializedSize() returns (size: uint32)
      requires Valid()
      ensures size == Wrap32(SizeContent(fields, View()))
    {
      hide IsSet, SizeField;
      size := 12;
      for i := 0 to |fields|
        invariant Wrap32(size + SizeFields(fields, View(), i)) == Wrap32(SizeContent(fields, View()))
      {
        if IsSet(fields, View(), i) {
          var n := PropertySize(fields[i].domain, values[i]);
          StepSize(size, SizeField(fields[i].domain, values[i]), SizeFields(fields, View(), i + 1));
          size := Wrap32(size + n);
        }
      }
      WrapIdentity(size);
    }
  }

  /** What is added for one field: its size, but sizeof(std::string) for a long string. */
  method PropertySize(d: Domain, a: Arg) returns (n: uint32)
    requires d != Bit && Fits(d, a)
    ensures n == Wrap32(SizeField(d, a))
  {
    if d == LongStr {
      WrapIdentity(SIZEOF_STRING);
      n := SIZEOF_STRING;
    } else {
      n := ArgSize(d, a);
    }
  }

  lemma ContentBytes(start: bytes, classId: uint16, fs: seq<PropField>, p: Props)
    requires Holds(fs, p)
    ensures start + BE(classId, 2) + BE(p.weight, 2) + BE(p.bodySize, 8) + BE(FlagsToNat(Refreshed(fs, p)), 2)
            + EncodeFields(fs, p, 0)
         == start + EncodeContent(classId, fs, p)
  {
    var a, b, c, d, e := BE(classId, 2), BE(p.weight, 2), BE(p.bodySize, 8),
                         BE(FlagsToNat(Refreshed(fs, p)), 2), EncodeFields(fs, p, 0);
    Regroup(start + a + b + c, d, e);
    Regroup(start + a + b, c, d + e);
    Regroup(start + a, b, c + (d + e));
    Regroup(start, a, b + (c + (d + e)));
  }

  /** properties::read on the payload of a header frame. */
  method ReadProperties(i: IStream, spec: ContentSchema) returns (r: Option<PropsRead>)
    requires i.Valid() && forall c <- spec :: FieldsFit(spec[c])
    modifies i
    ensures i.Agrees(DecodeContent(spec, old(i.Rest())), r)
  {
    hide Properties.DecodeHeader;
    var c := ReadUint16(i);
    if c.None? || c.value !in spec {
      return None;
    }
    r := ReadHeader(i, spec[c.value]);
  }

  method ReadHeader(i: IStream, fs: seq<PropField>) returns (r: Option<PropsRead>)
    requires i.Valid() && FieldsFit(fs)
    modifies i
    ensures i.Agrees(DecodeHeader(fs, old(i.Rest())), r)
  {
    hide DecodeFields;
    var weight := ReadUint16(i);
    if weight.None? {
      return None;
    }
    var bodySize := ReadUint64(i);
    if bodySize.None? {
      return None;
    }
    var n := ReadUint16(i);
    if n.None? {
      return None;
    }
    var flags := NatToFlags(n.value, |fs|);
    var values := ReadFields(i, fs, flags);
    r := if values.Some? then Some(PropsRead(weight.value, bodySize.value, flags, values.value)) else None;
  }

  method ReadProperty(i: IStream, fs: seq<PropField>, flags: seq<bool>, k: nat) returns (r: Option<Option<Arg>>)
    requires i.Valid() && i.Good() && FieldsFit(fs) && |flags| == |fs| && k < |fs|
    modifies i
    ensures i.Agrees(DecodeProperty(fs, flags, old(i.Rest()), k), r)
  {
    hide DecodeRaw;
    if !flags[fs[k].position] {
      return Some(None);
    }
    var a := ReadRaw(i, fs[k].domain);
    r := if a.Some? then Some(a) else None;
  }

  /** Reading one more field moves it from what is still to be decoded to what is done. */
  lemma PrependStep(done: seq<Option<Arg>>, fs: seq<PropField>, flags: seq<bool>, bs: bytes, k: nat)
    requires FieldsFit(fs) && |flags| == |fs| && k <= |fs|
    ensures Prepend(done, DecodeFields(fs, flags, bs, k))
         == if k == |fs| then Ok(done, bs)
            else match DecodeProperty(fs, flags, bs, k)
                 case Err => Err
                 case Ok(v, rest) => Prepend(done + [v], DecodeFields(fs, flags, rest, k + 1))
  {
    hide DecodeProperty;
    if k == |fs| {
      assert done + [] == done;
    } else if DecodeProperty(fs, flags, bs, k).Ok? {
      var v, rest := DecodeProperty(fs, flags, bs, k).value, DecodeProperty(fs, flags, bs, k).rest;
      PrependTwice(done, [v], DecodeFields(fs, flags, rest, k + 1));
    }
  }

  method ReadFields(i: IStream, fs: seq<PropField>, flags: seq<bool>) returns (r: Option<seq<Option<Arg>>>)
    requires i.Valid() && i.Good() && FieldsFit(fs) && |flags| == |fs|
    modifies i
    ensures i.Agrees(DecodeFields(fs, flags, old(i.Rest()), 0), r)
  {
    hide DecodeProperty, DecodeFields;
    var done: seq<Option<Arg>> := [];
    PrependNothing(DecodeFields(fs, flags, i.Rest(), 0));
    for k := 0 to |fs|
      invariant i.Valid() && i.Good()
      invariant Prepend(done, DecodeFields(fs, flags, i.Rest(), k)) == DecodeFields(fs, flags, old(i.Rest()), 0)
    {
      PrependStep(done, fs, flags, i.Rest(), k);
      var v := ReadProperty(i, fs, flags, k);
      if v.None? {
        return None;
      }
      done := done + [v.value];
    }
    PrependStep(done, fs, flags, i.Rest(), |fs|);
    r := Some(done);
  }
}
