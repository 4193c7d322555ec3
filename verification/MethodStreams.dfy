/** Methods of a schema, and the code the generator emits for them, run argument by argument on streams. */
module MethodStreams {
  import opened Bytes
  import opened Bits
  import opened Streams
  import opened Wireformat
  import opened TableCodec
  import opened TableTheorems
  import opened TableStreams
  import opened MethodCodec

  datatype Method = Method(classId: uint16, methodId: uint16, args: seq<Arg>)

  /** The argument domains of every (class id, method id) pair. */
  type Schema = map<(int, int), seq<Domain>>

  ghost predicate SchemaFits(spec: Schema) {
    forall k <- spec :: RunsFit(spec[k])
  }

  function Domains(spec: Schema, m: Method): seq<Domain>
    requires (m.classId, m.methodId) in spec
  {
    spec[(m.classId, m.methodId)]
  }

  /** A method object: its class is in the schema and its fields hold values of their types. */
  ghost predicate Belongs(spec: Schema, m: Method) {
    (m.classId, m.methodId) in spec && Typed(Domains(spec, m), m.args) && RunsFit(Domains(spec, m))
  }

  function EncodeMethod(spec: Schema, m: Method): bytes
    requires Belongs(spec, m)
  {
    BE(m.classId, 2) + (BE(m.methodId, 2) + EncodeFrom(Domains(spec, m), m.args, 0))
  }

  /** The two nested switches reject unknown class and method ids. */
  function DecodeMethod(spec: Schema, bs: bytes): Parsed<Method>
    requires SchemaFits(spec)
  {
    match ReadUint(bs, 2)
    case Err => Err
    case Ok(c, rest) =>
      match ReadUint(rest, 2)
      case Err => Err
      case Ok(m, body) => DecodeBody(spec, c, m, body)
  }

  function DecodeBody(spec: Schema, c: nat, m: nat, body: bytes): Parsed<Method>
    requires SchemaFits(spec) && c < Pow256(2) && m < Pow256(2)
  {
    Pow256Values();
    if (c, m) !in spec then Err
    else
      match DecodeFrom(spec[(c, m)], body, 0)
      case Err => Err
      case Ok(args, rest) => Ok(Method(c, m, args), rest)
  }

  lemma DecodeMethodHeader(spec: Schema, c: uint16, m: uint16, body: bytes)
    requires SchemaFits(spec)
    ensures DecodeMethod(spec, BE(c, 2) + (BE(m, 2) + body))
         == (Pow256Values(); DecodeBody(spec, c, m, body))
  {
    Pow256Values();
    ReadUintIff(BE(c, 2) + (BE(m, 2) + body), 2, c, BE(m, 2) + body);
    ReadUintIff(BE(m, 2) + body, 2, m, body);
  }

  /** A method reads back as written if and only if its short strings have no NUL and its tables are exact. */
  lemma MethodRoundTripIff(spec: Schema, m: Method, r: bytes)
    requires SchemaFits(spec) && Belongs(spec, m)
    ensures DecodeMethod(spec, EncodeMethod(spec, m) + r) == Ok(m, r) <==> AllSurvive(Domains(spec, m), m.args, 0)
  {
    var ds := Domains(spec, m);
    var body := EncodeFrom(ds, m.args, 0);
    Regroup(BE(m.classId, 2), BE(m.methodId, 2) + body, r);
    Regroup(BE(m.methodId, 2), body, r);
    DecodeMethodHeader(spec, m.classId, m.methodId, body + r);
    ArgsRoundTripIff(ds, m.args, 0, r);
    assert m.args[0..] == m.args;
  }

  /** Arguments that decode have their types, and the setters have kept NULs out of short strings. */
  lemma {:induction false} DecodedArgs(ds: seq<Domain>, bs: bytes, i: nat)
    requires RunsFit(ds) && i <= |ds| && DecodeFrom(ds, bs, i).Ok?
    ensures var v := DecodeFrom(ds, bs, i).value;
            forall k :: i <= k < |ds| ==>
              Fits(ds[k], v[k - i]) && (Survives(ds[k], v[k - i]) <==> (v[k - i].Tab? ==> Exact(v[k - i].t)))
    decreases |ds| - i
  {
    hide DecodeArg, FieldBytes, Fits, Survives, GetBit, FlagArgs;
    var v := DecodeFrom(ds, bs, i).value;
    if i == |ds| {
    } else if IsBit(ds, i) {
      var e := RunEnd(ds, i);
      var bits, rest := ReadUint(bs, FieldBytes(e - i)).value, ReadUint(bs, FieldBytes(e - i)).rest;
      var more := DecodeFrom(ds, rest, e).value;
      DecodedArgs(ds, rest, e);
      forall k | i <= k < |ds|
        ensures Fits(ds[k], v[k - i]) && (Survives(ds[k], v[k - i]) <==> (v[k - i].Tab? ==> Exact(v[k - i].t)))
      {
        if k < e {
          assert IsBit(ds, k) && v[k - i] == Flag(GetBit(bits, k - i));
          FlagFits(ds[k], v[k - i]);
        } else {
          assert v[k - i] == more[k - e];
        }
      }
    } else {
      var rest := DecodeArg(ds[i], bs).rest;
      var more := DecodeFrom(ds, rest, i + 1).value;
      ArgConsumes(ds[i], bs);
      AcceptedSurvives(ds[i], bs);
      DecodedArgs(ds, rest, i + 1);
      forall k | i <= k < |ds|
        ensures Fits(ds[k], v[k - i]) && (Survives(ds[k], v[k - i]) <==> (v[k - i].Tab? ==> Exact(v[k - i].t)))
      {
        assert k > i ==> v[k - i] == more[k - (i + 1)];
      }
    }
  }

  lemma FlagFits(d: Domain, a: Arg)
    requires d == Bit && a.Flag?
    ensures Fits(d, a) && Survives(d, a)
  {
  }

  lemma AcceptedSurvives(d: Domain, bs: bytes)
    requires d != Bit && DecodeArg(d, bs).Ok?
    ensures var a := DecodeArg(d, bs).value;
            Survives(d, a) <==> (a.Tab? ==> Exact(a.t))
  {
  }

  predicate TablesExact(args: seq<Arg>) {
    forall k :: 0 <= k < |args| && args[k].Tab? ==> Exact(args[k].t)
  }

  /**
   * Bytes that decode are normalised by re-encoding: the method read has fields of its types, writing it takes no
   * more bytes than were consumed, and it reads back as itself exactly when its tables are exact.
   */
  lemma MethodNormalises(spec: Schema, bs: bytes, r: bytes)
    requires SchemaFits(spec) && DecodeMethod(spec, bs).Ok?
    ensures var m := DecodeMethod(spec, bs).value;
            && Belongs(spec, m)
            && |EncodeMethod(spec, m)| + |DecodeMethod(spec, bs).rest| <= |bs|
            && (DecodeMethod(spec, EncodeMethod(spec, m) + r) == Ok(m, r) <==> TablesExact(m.args))
  {
    hide DecodeFrom, EncodeFrom, Exact, Fits, Survives;
    Pow256Values();
    var m := DecodeMethod(spec, bs).value;
    var ds := Domains(spec, m);
    var body := ReadUint(ReadUint(bs, 2).rest, 2).rest;
    DecodedArgs(ds, body, 0);
    assert m.args == DecodeFrom(ds, body, 0).value && m.args[0..] == m.args;
    ArgsConsume(ds, body, 0, m.args);
    MethodRoundTripIff(spec, m, r);
    assert forall k :: 0 <= k < |ds| ==> m.args[k] == m.args[k - 0];
  }

  function SizeMethod(spec: Schema, m: Method): nat
    requires Belongs(spec, m)
  {
    4 + SizeFrom(Domains(spec, m), m.args, 0)
  }

  /** The 32-bit size announces the bytes written exactly when they fit and the tables' surplus vanishes modulo 2^32. */
  lemma MethodSizeIff(spec: Schema, m: Method)
    requires Belongs(spec, m)
    ensures Wrap32(SizeMethod(spec, m)) == |EncodeMethod(spec, m)|
       <==> |EncodeMethod(spec, m)| < TWO32 && SurplusFrom(m.args, 0) % TWO32 == 0
  {
    AccountArgs(Domains(spec, m), m.args, 0);
    SumModulo(SizeMethod(spec, m), |EncodeMethod(spec, m)|, SurplusFrom(m.args, 0), TWO32);
  }

  lemma {:induction false} SurvivorsHaveNoSurplus(ds: seq<Domain>, args: seq<Arg>, i: nat)
    requires Typed(ds, args) && i <= |ds| && AllSurvive(ds, args, i)
    ensures SurplusFrom(args, i) == 0
    decreases |ds| - i
  {
    if i < |ds| {
      SurvivorsHaveNoSurplus(ds, args, i + 1);
      assert Survives(ds[i], args[i]) && Fits(ds[i], args[i]);
    }
  }

  // ---- writing ----

  /** Where the field being assembled at index i begins; i itself outside a run. */
  function Anchor(ds: seq<Domain>, i: nat): (s: nat)
    requires i <= |ds|
    ensures s <= i
  {
    if IsBit(ds, i) then RunStart(ds, i) else i
  }

  lemma AnchorOfBit(ds: seq<Domain>, i: nat)
    requires IsBit(ds, i)
    ensures IsBit(ds, Anchor(ds, i)) && RunEnd(ds, Anchor(ds, i)) == RunEnd(ds, i)
    ensures Anchor(ds, i) <= i < RunEnd(ds, i)
    ensures if IsBit(ds, i + 1) then Anchor(ds, i + 1) == Anchor(ds, i)
            else Anchor(ds, i + 1) == i + 1 == RunEnd(ds, i)
  {
    EndOfRun(ds, Anchor(ds, i), i);
    EndOfRun(ds, i, i + 1);
  }

  lemma AnchorOfOther(ds: seq<Domain>, i: nat)
    requires i < |ds| && !IsBit(ds, i)
    ensures Anchor(ds, i) == i && Anchor(ds, i + 1) == i + 1
  {
  }

  predicate ArgWritable(a: Arg) { a.Tab? ==> WritableEntries(a.t) }

  method WriteArg(o: OStream, d: Domain, a: Arg) returns (ok: bool)
    requires d != Bit && Fits(d, a)
    modifies o
    ensures ok <==> ArgWritable(a)
    ensures ok ==> o.data == old(o.data) + EncodeArg(d, a)
  {
    Pow256Values();
    ok := true;
    if d == ShortStr {
      ok := WriteShortString(o, a.s);
    } else if d == LongStr {
      ok := WriteLongString(o, a.s);
    } else if d == Table {
      ok := WriteTable(o, a.t);
    } else if d == Octet {
      WriteUint8(o, a.n);
    } else if d == Short {
      WriteUint16(o, a.n);
    } else if d == Long {
      WriteUint32(o, a.n);
    } else {
      WriteUint64(o, a.n);
    }
  }

  method WriteBits(o: OStream, k: nat, bits: nat)
    requires k in {1, 2, 4} && bits < Pow256(k)
    modifies o
    ensures o.data == old(o.data) + BE(bits, k)
  {
    Pow256Values();
    if k == 1 {
      WriteUint8(o, bits);
    } else if k == 2 {
      WriteUint16(o, bits);
    } else {
      WriteUint32(o, bits);
    }
  }

  /** The field assembled so far at index i. */
  ghost predicate PartialField(ds: seq<Domain>, args: seq<Arg>, i: nat, bits: nat)
    requires Typed(ds, args) && RunsFit(ds) && i <= |ds|
  {
    var s := Anchor(ds, i);
    s < i ==> i - s <= RunLength(ds, s) && bits == Pack(args, s, i, RunLength(ds, s))
  }

  /** What is still to be written at index i, the field being assembled included. */
  function Pending(ds: seq<Domain>, args: seq<Arg>, i: nat): bytes
    requires Typed(ds, args) && RunsFit(ds) && i <= |ds|
  {
    EncodeFrom(ds, args, Anchor(ds, i))
  }

  lemma PartialStep(ds: seq<Domain>, args: seq<Arg>, i: nat, field: nat)
    requires Typed(ds, args) && RunsFit(ds) && IsBit(ds, i) && PartialField(ds, args, i, field)
    ensures var s := Anchor(ds, i);
            var n := RunLength(ds, s);
            && s <= i && i - s < n <= MAX_RUN
            && (i == s || field == Pack(args, s, i, n))
            && Field(BitfieldSize(n), if i == s then 0 else field, i - s)
            && SetBit(BitfieldSize(n), if i == s then 0 else field, args[i].b, i - s) == Pack(args, s, i + 1, n)
  {
    AnchorOfBit(ds, i);
    var s := Anchor(ds, i);
    PackStep(args, s, i, RunLength(ds, s));
  }

  lemma PendingRun(ds: seq<Domain>, args: seq<Arg>, i: nat, start: bytes)
    requires Typed(ds, args) && RunsFit(ds) && IsBit(ds, i) && !IsBit(ds, i + 1)
    ensures start + Pending(ds, args, i) == start + BitField(ds, args, Anchor(ds, i)) + Pending(ds, args, i + 1)
  {
    AnchorOfBit(ds, i);
    Regroup(start, BitField(ds, args, Anchor(ds, i)), Pending(ds, args, i + 1));
  }

  /** A bit field is zeroed at the first bit of its run and written at the last. */
  method WriteBit(o: OStream, ds: seq<Domain>, args: seq<Arg>, i: nat, field: nat) returns (bits: nat)
    requires Typed(ds, args) && RunsFit(ds) && IsBit(ds, i) && PartialField(ds, args, i, field)
    modifies o
    ensures o.data + Pending(ds, args, i + 1) == old(o.data) + Pending(ds, args, i)
    ensures PartialField(ds, args, i + 1, bits)
  {
    hide Pack, SetBit, EncodeFrom, BE, Pow2, Pow256;
    AnchorOfBit(ds, i);
    PartialStep(ds, args, i, field);
    var number := GetBitsNumber(i, ds);
    var length := GetBitsLength(i, ds);
    bits := if number == 0 then 0 else field;
    bits := SetBit(BitfieldSize(length), bits, args[i].b, number);
    if number == length - 1 {
      PackFitsBytes(bits, length);
      WriteBits(o, FieldBytes(length), bits);
      PendingRun(ds, args, i, old(o.data));
    }
  }

  method WriteOther(o: OStream, ds: seq<Domain>, args: seq<Arg>, i: nat) returns (ok: bool)
    requires Typed(ds, args) && RunsFit(ds) && i < |ds| && !IsBit(ds, i)
    modifies o
    ensures ok <==> ArgWritable(args[i])
    ensures ok ==> o.data + Pending(ds, args, i + 1) == old(o.data) + Pending(ds, args, i)
  {
    AnchorOfOther(ds, i);
    ok := WriteArg(o, ds[i], args[i]);
    Regroup(old(o.data), EncodeArg(ds[i], args[i]), Pending(ds, args, i + 1));
  }

  method WriteArgs(o: OStream, ds: seq<Domain>, args: seq<Arg>) returns (ok: bool)
    requires Typed(ds, args) && RunsFit(ds)
    modifies o
    ensures ok <==> forall k :: 0 <= k < |args| ==> ArgWritable(args[k])
    ensures ok ==> o.data == old(o.data) + Pending(ds, args, 0)
  {
    hide EncodeFrom, Pack;
    var bits: nat := 0;
    for i := 0 to |ds|
      invariant o.data + Pending(ds, args, i) == old(o.data) + Pending(ds, args, 0)
      invariant PartialField(ds, args, i, bits)
      invariant forall k :: 0 <= k < i ==> ArgWritable(args[k])
    {
      if ds[i] == Bit {
        bits := WriteBit(o, ds, args, i, bits);
      } else {
        ok := WriteOther(o, ds, args, i);
        if !ok {
          return;
        }
      }
    }
    PendingEnds(ds, args);
    assert o.data + [] == o.data;
    ok := true;
  }

  lemma PendingEnds(ds: seq<Domain>, args: seq<Arg>)
    requires Typed(ds, args) && RunsFit(ds)
    ensures Pending(ds, args, |ds|) == []
  {
  }

  lemma PendingStart(ds: seq<Domain>, args: seq<Arg>)
    requires Typed(ds, args) && RunsFit(ds)
    ensures Pending(ds, args, 0) == EncodeFrom(ds, args, 0)
  {
  }

  method WriteMethod(o: OStream, spec: Schema, m: Method) returns (ok: bool)
    requires Belongs(spec, m)
    modifies o
    ensures ok <==> forall k :: 0 <= k < |m.args| ==> ArgWritable(m.args[k])
    ensures ok ==> o.data == old(o.data) + EncodeMethod(spec, m)
  {
    WriteUint16(o, m.classId);
    WriteUint16(o, m.methodId);
    ok := WriteArgs(o, Domains(spec, m), m.args);
    PendingStart(Domains(spec, m), m.args);
    Regroup(old(o.data) + BE(m.classId, 2), BE(m.methodId, 2), EncodeFrom(Domains(spec, m), m.args, 0));
    Regroup(old(o.data), BE(m.classId, 2), BE(m.methodId, 2) + EncodeFrom(Domains(spec, m), m.args, 0));
  }

  // ---- sizes ----

  method ArgSize(d: Domain, a: Arg) returns (size: uint32)
    requires d != Bit && Fits(d, a)
    ensures size == Wrap32(SizeArg(d, a))
  {
    if d == ShortStr {
      size := Wrap32(1 + |a.s|);
    } else if d == LongStr {
      size := Wrap32(4 + |a.s|);
    } else if d == Table {
      size := TableSize(a.t);
    } else {
      size := Wrap32(NumWidth(d));
    }
  }

  /** A bit field is counted at the last bit of its run. */
  method BitSize(ds: seq<Domain>, args: seq<Arg>, i: nat) returns (n: uint32)
    requires Typed(ds, args) && RunsFit(ds) && IsBit(ds, i)
    ensures n + SizeFrom(ds, args, Anchor(ds, i + 1)) == SizeFrom(ds, args, Anchor(ds, i))
  {
    AnchorOfBit(ds, i);
    var length := GetBitsLength(i, ds);
    var number := GetBitsNumber(i, ds);
    n := if number == length - 1 then FieldBytes(length) else 0;
  }

  /** The size still to be counted at index i. */
  function PendingSize(ds: seq<Domain>, args: seq<Arg>, i: nat): nat
    requires Typed(ds, args) && RunsFit(ds) && i <= |ds|
  {
    SizeFrom(ds, args, Anchor(ds, i))
  }

  method FieldSize(ds: seq<Domain>, args: seq<Arg>, i: nat) returns (n: uint32)
    requires Typed(ds, args) && RunsFit(ds) && i < |ds|
    ensures PendingSize(ds, args, i) >= PendingSize(ds, args, i + 1)
    ensures n == Wrap32(PendingSize(ds, args, i) - PendingSize(ds, args, i + 1))
  {
    if ds[i] == Bit {
      n := BitSize(ds, args, i);
      WrapIdentity(n);
    } else {
      AnchorOfOther(ds, i);
      n := ArgSize(ds[i], args[i]);
    }
  }

  lemma PendingSizeEnds(spec: Schema, m: Method)
    requires Belongs(spec, m)
    ensures 4 + PendingSize(Domains(spec, m), m.args, 0) == SizeMethod(spec, m)
    ensures PendingSize(Domains(spec, m), m.args, |m.args|) == 0
  {
  }

  /** get_serialized_size() */
  method GetSerializedSize(spec: Schema, m: Method) returns (size: uint32)
    requires Belongs(spec, m)
    ensures size == Wrap32(SizeMethod(spec, m))
  {
    hide PendingSize, SizeMethod, Wrap32;
    var ds, args := Domains(spec, m), m.args;
    size := 4;
    PendingSizeEnds(spec, m);
    for i := 0 to |ds|
      invariant Wrap32(size + PendingSize(ds, args, i)) == Wrap32(SizeMethod(spec, m))
    {
      var n := FieldSize(ds, args, i);
      StepSize(size, PendingSize(ds, args, i) - PendingSize(ds, args, i + 1), PendingSize(ds, args, i + 1));
      size := Wrap32(size + n);
    }
    WrapIdentity(size);
  }

  // ---- reading ----

  method ReadRaw(i: IStream, d: Domain) returns (r: Option<Arg>)
    requires i.Valid() && d != Bit
    modifies i
    ensures i.Agrees(DecodeRaw(d, old(i.Rest())), r)
  {
    r := None;
    if d == ShortStr {
      var s := ReadShortString(i);
      if s.Some? {
        r := Some(Str(s.value));
      }
    } else if d == LongStr {
      var s := ReadLongString(i);
      if s.Some? {
        r := Some(Str(s.value));
      }
    } else if d == Table {
      var t := ReadTable(i);
      if t.Some? {
        r := Some(Tab(t.value));
      }
    } else {
      var n := ReadBits(i, NumWidth(d));
      if n.Some? {
        r := Some(Num(n.value));
      }
    }
  }

  method ReadArg(i: IStream, d: Domain) returns (r: Option<Arg>)
    requires i.Valid() && d != Bit
    modifies i
    ensures i.Agrees(DecodeArg(d, old(i.Rest())), r)
  {
    r := ReadRaw(i, d);
    if r.Some? && !SetterAccepts(d, r.value) {
      r := None;
    }
  }

  method ReadBits(i: IStream, k: nat) returns (r: Option<nat>)
    requires i.Valid() && k in {1, 2, 4, 8}
    modifies i
    ensures i.Agrees(ReadUint(old(i.Rest()), k), r)
  {
    if k == 1 {
      var n := ReadUint8(i);
      r := if n.Some? then Some(n.value) else None;
    } else if k == 2 {
      var n := ReadUint16(i);
      r := if n.Some? then Some(n.value) else None;
    } else if k == 4 {
      var n := ReadUint32(i);
      r := if n.Some? then Some(n.value) else None;
    } else {
      var n := ReadUint64(i);
      r := if n.Some? then Some(n.value) else None;
    }
  }

  /** What is still to come at index i: inside a run, its remaining bits are already in `bits`. */
  ghost function Resume(ds: seq<Domain>, bs: bytes, i: nat, bits: nat): Parsed<seq<Arg>>
    requires RunsFit(ds) && i <= |ds|
  {
    if Anchor(ds, i) < i then InRun(ds, bs, i, bits) else DecodeFrom(ds, bs, i)
  }

  ghost function InRun(ds: seq<Domain>, bs: bytes, i: nat, bits: nat): Parsed<seq<Arg>>
    requires RunsFit(ds) && IsBit(ds, i)
  {
    AnchorOfBit(ds, i);
    Prepend(FlagArgs(bits, i - Anchor(ds, i), RunLength(ds, Anchor(ds, i))), DecodeFrom(ds, bs, RunEnd(ds, i)))
  }

  /** Taking one bit out of a field that has been read. */
  lemma TakeBit(ds: seq<Domain>, bs: bytes, i: nat, bits: nat)
    requires RunsFit(ds) && IsBit(ds, i)
    ensures InRun(ds, bs, i, bits) == Prepend([Flag(GetBit(bits, i - Anchor(ds, i)))], Resume(ds, bs, i + 1, bits))
  {
    hide DecodeFrom, FieldBytes, GetBit;
    AnchorOfBit(ds, i);
    var s, e := Anchor(ds, i), RunEnd(ds, i);
    var n := RunLength(ds, s);
    var head, tail := [Flag(GetBit(bits, i - s))], FlagArgs(bits, i + 1 - s, n);
    assert FlagArgs(bits, i - s, n) == head + tail;
    PrependTwice(head, tail, DecodeFrom(ds, bs, e));
    if IsBit(ds, i + 1) {
      EndOfRun(ds, i, i + 1);
    } else {
      assert tail == [];
      PrependNothing(DecodeFrom(ds, bs, e));
    }
  }

  /** At the first bit of a run its field is read. */
  lemma StartRun(ds: seq<Domain>, bs: bytes, i: nat, bits: nat)
    requires RunsFit(ds) && IsBit(ds, i) && Anchor(ds, i) == i
    ensures Resume(ds, bs, i, bits)
         == match ReadUint(bs, FieldBytes(RunLength(ds, i)))
            case Err => Err
            case Ok(field, rest) => InRun(ds, rest, i, field)
  {
    hide FieldBytes;
  }

  method ReadBit(i: IStream, ds: seq<Domain>, k: nat, field: nat) returns (bits: Option<nat>, flag: bool)
    requires i.Valid() && i.Good() && RunsFit(ds) && IsBit(ds, k)
    modifies i
    ensures i.Valid()
    ensures match bits
            case None => Resume(ds, old(i.Rest()), k, field) == Err
            case Some(b) =>
              i.Good() && Resume(ds, old(i.Rest()), k, field) == Prepend([Flag(flag)], Resume(ds, i.Rest(), k + 1, b))
    ensures Anchor(ds, k) < k ==> bits == Some(field) && i.Rest() == old(i.Rest())
  {
    hide DecodeFrom, InRun, FieldBytes;
    AnchorOfBit(ds, k);
    var number := GetBitsNumber(k, ds);
    var length := GetBitsLength(k, ds);
    flag := false;
    if number == 0 {
      StartRun(ds, i.Rest(), k, field);
      bits := ReadBits(i, FieldBytes(length));
      if bits.None? {
        return;
      }
    } else {
      bits := Some(field);
    }
    TakeBit(ds, i.Rest(), k, bits.value);
    flag := GetBit(bits.value, number);
  }

  method ReadOther(i: IStream, ds: seq<Domain>, k: nat, bits: nat) returns (a: Option<Arg>)
    requires i.Valid() && i.Good() && RunsFit(ds) && k < |ds| && !IsBit(ds, k)
    modifies i
    ensures i.Valid()
    ensures match a
            case None => Resume(ds, old(i.Rest()), k, bits) == Err
            case Some(v) =>
              i.Good() && Resume(ds, old(i.Rest()), k, bits) == Prepend([v], Resume(ds, i.Rest(), k + 1, bits))
  {
    AnchorOfOther(ds, k);
    a := ReadArg(i, ds[k]);
  }

  lemma ResumeEnds(ds: seq<Domain>, bs: bytes, bits: nat)
    requires RunsFit(ds)
    ensures Resume(ds, bs, 0, bits) == DecodeFrom(ds, bs, 0)
    ensures Resume(ds, bs, |ds|, bits) == Ok([], bs)
  {
  }

  method ReadArgs(i: IStream, ds: seq<Domain>) returns (r: Option<seq<Arg>>)
    requires i.Valid() && i.Good() && RunsFit(ds)
    modifies i
    ensures i.Agrees(DecodeFrom(ds, old(i.Rest()), 0), r)
  {
    hide DecodeFrom, Resume;
    var done: seq<Arg> := [];
    var bits: nat := 0;
    PrependNothing(DecodeFrom(ds, i.Rest(), 0));
    ResumeEnds(ds, i.Rest(), bits);
    for k := 0 to |ds|
      invariant i.Valid() && i.Good()
      invariant Prepend(done, Resume(ds, i.Rest(), k, bits)) == DecodeFrom(ds, old(i.Rest()), 0)
    {
      var a: Arg;
      if ds[k] == Bit {
        var field, flag := ReadBit(i, ds, k, bits);
        if field.None? {
          return None;
        }
        bits, a := field.value, Flag(flag);
      } else {
        var value := ReadOther(i, ds, k, bits);
        if value.None? {
          return None;
        }
        a := value.value;
      }
      PrependTwice(done, [a], Resume(ds, i.Rest(), k + 1, bits));
      done := done + [a];
    }
    ResumeEnds(ds, i.Rest(), bits);
    assert done + [] == done;
    r := Some(done);
  }

  /** method::read on the payload of a frame. */
  method ReadMethod(i: IStream, spec: Schema) returns (r: Option<Method>)
    requires i.Valid() && SchemaFits(spec)
    modifies i
    ensures i.Agrees(DecodeMethod(spec, old(i.Rest())), r)
  {
    var c := ReadUint16(i);
    if c.None? {
      return None;
    }
    var m := ReadUint16(i);
    if m.None? {
      return None;
    }
    if (c.value, m.value) !in spec {
      return None;
    }
    var args := ReadArgs(i, spec[(c.value, m.value)]);
    r := if args.Some? then Some(Method(c.value, m.value, args.value)) else None;
  }
}
