/** Content headers: the generated property codec (codegen.py) over an arbitrary list of fields. */
module Properties {
  import opened Bytes
  import opened Bits
  import opened Streams
  import opened TableTheorems
  import opened MethodCodec

  /** A property: its domain and its position in the flag set. */
  datatype PropField = PropField(domain: Domain, position: nat)

  /** The generated flag set has one bit per field, and the wire gives it 16. */
  predicate FieldsFit(fs: seq<PropField>) {
    && |fs| <= 16
    && (forall i :: 0 <= i < |fs| ==> fs[i].position < |fs| && fs[i].domain != Bit)
    && (forall i, j :: 0 <= i < j < |fs| ==> fs[i].position != fs[j].position)
  }

  datatype Props = Props(weight: uint16, bodySize: uint64, flags: seq<bool>, values: seq<Arg>)

  predicate Holds(fs: seq<PropField>, p: Props) {
    && FieldsFit(fs) && |p.flags| == |fs| && |p.values| == |fs|
    && forall i :: 0 <= i < |fs| ==> Fits(fs[i].domain, p.values[i])
  }

  /** X_is_set(): the flag, but for a table whether it is empty. */
  predicate IsSet(fs: seq<PropField>, p: Props, i: nat)
    requires Holds(fs, p) && i < |fs|
  {
    if fs[i].domain == Table then p.values[i].t == [] else p.flags[fs[i].position]
  }

  /** The flag set after write() has refreshed the flags of the table fields i and up. */
  function Refresh(fs: seq<PropField>, p: Props, i: nat, flags: seq<bool>): (r: seq<bool>)
    requires Holds(fs, p) && i <= |fs| && |flags| == |fs|
    ensures |r| == |fs|
    decreases |fs| - i
  {
    if i == |fs| then flags
    else if fs[i].domain == Table then Refresh(fs, p, i + 1, flags[fs[i].position := IsSet(fs, p, i)])
    else Refresh(fs, p, i + 1, flags)
  }

  function Refreshed(fs: seq<PropField>, p: Props): (r: seq<bool>)
    requires Holds(fs, p)
    ensures |r| == |fs|
  {
    Refresh(fs, p, 0, p.flags)
  }

  lemma {:induction false} RefreshAt(fs: seq<PropField>, p: Props, i: nat, flags: seq<bool>, k: nat)
    requires Holds(fs, p) && i <= |fs| && |flags| == |fs| && k < |fs|
    ensures Refresh(fs, p, i, flags)[fs[k].position]
         == if i <= k && fs[k].domain == Table then IsSet(fs, p, k) else flags[fs[k].position]
    decreases |fs| - i
  {
    if i < |fs| {
      if fs[i].domain == Table {
        RefreshAt(fs, p, i + 1, flags[fs[i].position := IsSet(fs, p, i)], k);
      } else {
        RefreshAt(fs, p, i + 1, flags, k);
      }
    }
  }

  /** After the refresh every flag says what is_set() says. */
  lemma RefreshedIsSet(fs: seq<PropField>, p: Props, k: nat)
    requires Holds(fs, p) && k < |fs|
    ensures Refreshed(fs, p)[fs[k].position] == IsSet(fs, p, k)
  {
    RefreshAt(fs, p, 0, p.flags, k);
  }

  /** After the refresh a table field is flagged exactly when it is empty, and any other as its setter left it. */
  lemma TablePropertyIff(fs: seq<PropField>, p: Props, k: nat)
    requires Holds(fs, p) && k < |fs|
    ensures Refreshed(fs, p)[fs[k].position]
       <==> if fs[k].domain == Table then p.values[k].t == [] else p.flags[fs[k].position]
  {
    RefreshedIsSet(fs, p, k);
  }

  // ---- the flag set as a number ----

  /** std::bitset::to_ulong() */
  function FlagsToNat(flags: seq<bool>): (n: nat)
    ensures n < Pow2(|flags|)
  {
    if flags == [] then 0 else (if flags[0] then 1 else 0) + 2 * FlagsToNat(flags[1..])
  }

  /** std::bitset<size>(n): the low-order bits of n. */
  function NatToFlags(n: nat, size: nat): seq<bool> {
    seq(size, k requires 0 <= k < size => Bits.Bit(n, k))
  }

  lemma {:induction false} FlagBit(flags: seq<bool>, k: nat)
    requires k < |flags|
    ensures Bits.Bit(FlagsToNat(flags), k) == flags[k]
  {
    if k != 0 {
      FlagBit(flags[1..], k - 1);
    }
  }

  lemma FlagsRoundTrip(flags: seq<bool>)
    requires |flags| <= 16
    ensures FlagsToNat(flags) < TWO16 && NatToFlags(FlagsToNat(flags), |flags|) == flags
  {
    Pow2Mono(|flags|, 16);
    Pow2Bytes(2);
    Pow256Values();
    forall k | 0 <= k < |flags| ensures Bits.Bit(FlagsToNat(flags), k) == flags[k] {
      FlagBit(flags, k);
    }
  }

  // ---- the wire ----

  function EncodeFields(fs: seq<PropField>, p: Props, i: nat): bytes
    requires Holds(fs, p) && i <= |fs|
    decreases |fs| - i
  {
    if i == |fs| then []
    else if IsSet(fs, p, i) then EncodeArg(fs[i].domain, p.values[i]) + EncodeFields(fs, p, i + 1)
    else EncodeFields(fs, p, i + 1)
  }

  function EncodeHeader(fs: seq<PropField>, p: Props): bytes
    requires Holds(fs, p)
  {
    BE(p.weight, 2) + (BE(p.bodySize, 8) + (BE(FlagsToNat(Refreshed(fs, p)), 2) + EncodeFields(fs, p, 0)))
  }

  /** write() starts with the class id, which the top-level read consumes. */
  function EncodeContent(classId: uint16, fs: seq<PropField>, p: Props): bytes
    requires Holds(fs, p)
  {
    BE(classId, 2) + EncodeHeader(fs, p)
  }

  /** What read() sets; a field whose flag is clear keeps an unspecified value (None). */
  datatype PropsRead = PropsRead(weight: uint16, bodySize: uint64, flags: seq<bool>, values: seq<Option<Arg>>)

  /** A field is read when its flag is set, and assigned directly: property strings are not validated on the way in. */
  function DecodeProperty(fs: seq<PropField>, flags: seq<bool>, bs: bytes, i: nat): Parsed<Option<Arg>>
    requires FieldsFit(fs) && |flags| == |fs| && i < |fs|
  {
    if !flags[fs[i].position] then Ok(None, bs)
    else
      match DecodeRaw(fs[i].domain, bs)
      case Err => Err
      case Ok(a, rest) => Ok(Some(a), rest)
  }

  function DecodeFields(fs: seq<PropField>, flags: seq<bool>, bs: bytes, i: nat): Parsed<seq<Option<Arg>>>
    requires FieldsFit(fs) && |flags| == |fs| && i <= |fs|
    decreases |fs| - i
  {
    if i == |fs| then Ok([], bs)
    else
      match DecodeProperty(fs, flags, bs, i)
      case Err => Err
      case Ok(v, rest) => Prepend([v], DecodeFields(fs, flags, rest, i + 1))
  }

  function DecodeHeader(fs: seq<PropField>, bs: bytes): Parsed<PropsRead>
    requires FieldsFit(fs)
  {
    Pow256Values();
    match ReadUint(bs, 2)
    case Err => Err
    case Ok(weight, r1) =>
      match ReadUint(r1, 8)
      case Err => Err
      case Ok(bodySize, r2) =>
        match ReadUint(r2, 2)
        case Err => Err
        case Ok(n, r3) =>
          var flags := NatToFlags(n, |fs|);
          match DecodeFields(fs, flags, r3, 0)
          case Err => Err
          case Ok(values, rest) => Ok(PropsRead(weight, bodySize, flags, values), rest)
  }

  /** The field lists of the classes that have content. */
  type ContentSchema = map<int, seq<PropField>>

  function DecodeContent(spec: ContentSchema, bs: bytes): Parsed<PropsRead>
    requires forall c <- spec :: FieldsFit(spec[c])
  {
    match ReadUint(bs, 2)
    case Err => Err
    case Ok(c, rest) => if c in spec then DecodeHeader(spec[c], rest) else Err
  }

  // ---- round trip ----

  /** Fields i and up as a reader restores them. */
  function Restored(fs: seq<PropField>, p: Props, i: nat): (r: seq<Option<Arg>>)
    requires Holds(fs, p) && i <= |fs|
    ensures |r| == |fs| - i
    ensures forall k :: i <= k < |fs| ==> r[k - i] == if IsSet(fs, p, k) then Some(p.values[k]) else None
    decreases |fs| - i
  {
    if i == |fs| then []
    else [if IsSet(fs, p, i) then Some(p.values[i]) else None] + Restored(fs, p, i + 1)
  }

  lemma EmptyTableIsExact()
    ensures Exact([])
  {
  }

  lemma {:induction false} FieldsRoundTrip(fs: seq<PropField>, p: Props, i: nat, r: bytes)
    requires Holds(fs, p) && i <= |fs|
    ensures DecodeFields(fs, Refreshed(fs, p), EncodeFields(fs, p, i) + r, i) == Ok(Restored(fs, p, i), r)
    decreases |fs| - i
  {
    if i == |fs| {
      assert [] + r == r;
    } else {
      FieldsRoundTrip(fs, p, i + 1, r);
      RefreshedIsSet(fs, p, i);
      if IsSet(fs, p, i) {
        EmptyTableIsExact();
        var tail := EncodeFields(fs, p, i + 1) + r;
        RawRoundTripIff(fs[i].domain, p.values[i], tail);
        Regroup(EncodeArg(fs[i].domain, p.values[i]), EncodeFields(fs, p, i + 1), r);
      }
    }
  }

  /** Reading after writing restores weight, body size, the refreshed flag set and every field that is set. */
  lemma ContentRoundTrip(spec: ContentSchema, classId: uint16, p: Props, r: bytes)
    requires (forall c <- spec :: FieldsFit(spec[c])) && classId in spec && Holds(spec[classId], p)
    ensures var fs := spec[classId];
            DecodeContent(spec, EncodeContent(classId, fs, p) + r)
            == Ok(PropsRead(p.weight, p.bodySize, Refreshed(fs, p), Restored(fs, p, 0)), r)
  {
    var fs := spec[classId];
    Pow256Values();
    Regroup(BE(classId, 2), EncodeHeader(fs, p), r);
    ReadUintIff(BE(classId, 2) + (EncodeHeader(fs, p) + r), 2, classId, EncodeHeader(fs, p) + r);
    HeaderRoundTrip(fs, p, r);
  }

  lemma HeaderRoundTrip(fs: seq<PropField>, p: Props, r: bytes)
    requires Holds(fs, p)
    ensures DecodeHeader(fs, EncodeHeader(fs, p) + r)
         == Ok(PropsRead(p.weight, p.bodySize, Refreshed(fs, p), Restored(fs, p, 0)), r)
  {
    var n, body := FlagsToNat(Refreshed(fs, p)), EncodeFields(fs, p, 0);
    var t3 := body + r;
    var t2 := BE(n, 2) + t3;
    var t1 := BE(p.bodySize, 8) + t2;
    Pow256Values();
    FlagsRoundTrip(Refreshed(fs, p));
    FieldsRoundTrip(fs, p, 0, r);
    ReadUintIff(t2, 2, n, t3);
    ReadUintIff(t1, 8, p.bodySize, t2);
    ReadUintIff(BE(p.weight, 2) + t1, 2, p.weight, t1);
    HeaderBytes(fs, p, r);
  }

  lemma HeaderBytes(fs: seq<PropField>, p: Props, r: bytes)
    requires Holds(fs, p)
    ensures EncodeHeader(fs, p) + r
         == BE(p.weight, 2) + (BE(p.bodySize, 8) + (BE(FlagsToNat(Refreshed(fs, p)), 2) + (EncodeFields(fs, p, 0) + r)))
  {
    var f := BE(FlagsToNat(Refreshed(fs, p)), 2);
    var body := EncodeFields(fs, p, 0);
    Regroup(BE(p.weight, 2), BE(p.bodySize, 8) + (f + body), r);
    Regroup(BE(p.bodySize, 8), f + body, r);
    Regroup(f, body, r);
  }

  /** Reading what was written, a table field arrives when it is empty, and any other when its flag is set. */
  lemma FieldArrivesIff(spec: ContentSchema, classId: uint16, p: Props, r: bytes, k: nat)
    requires (forall c <- spec :: FieldsFit(spec[c])) && classId in spec && Holds(spec[classId], p)
    requires k < |spec[classId]|
    ensures var fs := spec[classId];
            var read := DecodeContent(spec, EncodeContent(classId, fs, p) + r);
            && read.Ok? && |read.value.values| == |fs|
            && read.value.values[k]
               == if fs[k].domain == Table then (if p.values[k].t == [] then Some(Tab([])) else None)
                  else if p.flags[fs[k].position] then Some(p.values[k]) else None
  {
    hide DecodeContent, EncodeContent;
    ContentRoundTrip(spec, classId, p, r);
    assert Restored(spec[classId], p, 0)[k - 0] == Restored(spec[classId], p, 0)[k];
    RefreshedIsSet(spec[classId], p, k);
  }

  /** A property the sender has given: a set flag, or a table with entries. */
  predicate Given(fs: seq<PropField>, p: Props, i: nat)
    requires Holds(fs, p) && i < |fs|
  {
    if fs[i].domain == Table then p.values[i].t != [] else p.flags[fs[i].position]
  }

  lemma GivenRestoredIff(fs: seq<PropField>, p: Props)
    requires Holds(fs, p)
    ensures (forall i :: 0 <= i < |fs| && Given(fs, p, i) ==> Restored(fs, p, 0)[i] == Some(p.values[i]))
       <==> (forall i :: 0 <= i < |fs| && fs[i].domain == Table ==> p.values[i].t == [])
  {
    var restored := Restored(fs, p, 0);
    if i :| 0 <= i < |fs| && fs[i].domain == Table && p.values[i].t != [] {
      assert Given(fs, p, i) && restored[i - 0] == None;
    }
    forall i | 0 <= i < |fs|
      ensures restored[i] == if IsSet(fs, p, i) then Some(p.values[i]) else None
    {
      assert restored[i - 0] == restored[i];
    }
  }

  /**
   * Every given property arrives if and only if no table property has entries: a table is dropped just when it
   * has some.
   */
  lemma GivenArriveIff(spec: ContentSchema, classId: uint16, p: Props, r: bytes)
    requires (forall c <- spec :: FieldsFit(spec[c])) && classId in spec && Holds(spec[classId], p)
    ensures var fs := spec[classId];
            var read := DecodeContent(spec, EncodeContent(classId, fs, p) + r);
            && read.Ok? && read.rest == r && |read.value.values| == |fs|
            && ((forall i :: 0 <= i < |fs| && Given(fs, p, i) ==> read.value.values[i] == Some(p.values[i]))
                <==> (forall i :: 0 <= i < |fs| && fs[i].domain == Table ==> p.values[i].t == []))
  {
    hide DecodeContent, EncodeContent, Given;
    ContentRoundTrip(spec, classId, p, r);
    GivenRestoredIff(spec[classId], p);
  }

  // ---- size ----

  /** sizeof(std::string), which is what a long-string property counts for. */
  const SIZEOF_STRING: nat := 32

  function SizeField(d: Domain, a: Arg): nat
    requires d != Bit && Fits(d, a)
  {
    if d == LongStr then SIZEOF_STRING else SizeArg(d, a)
  }

  function SizeFields(fs: seq<PropField>, p: Props, i: nat): nat
    requires Holds(fs, p) && i <= |fs|
    decreases |fs| - i
  {
    if i == |fs| then 0
    else (if IsSet(fs, p, i) then SizeField(fs[i].domain, p.values[i]) else 0) + SizeFields(fs, p, i + 1)
  }

  /** weight, body size and flag set; the class id is not counted. */
  function SizeContent(fs: seq<PropField>, p: Props): nat
    requires Holds(fs, p)
  {
    2 + 8 + 2 + SizeFields(fs, p, 0)
  }

  /** How far the long strings that are set exceed the sizeof that counts for them (negative when they are short). */
  function LongStringExcess(fs: seq<PropField>, p: Props, i: nat): int
    requires Holds(fs, p) && i <= |fs|
    decreases |fs| - i
  {
    if i == |fs| then 0
    else (if fs[i].domain == LongStr && IsSet(fs, p, i) then 4 + |p.values[i].s| - 32 else 0)
         + LongStringExcess(fs, p, i + 1)
  }

  lemma AccountField(d: Domain, a: Arg)
    requires d != Bit && Fits(d, a) && (a.Tab? ==> a.t == [])
    ensures |EncodeArg(d, a)| == SizeField(d, a) + if d == LongStr then 4 + |a.s| - SIZEOF_STRING else 0
  {
    AccountArg(d, a);
  }

  lemma {:induction false} AccountFields(fs: seq<PropField>, p: Props, i: nat)
    requires Holds(fs, p) && i <= |fs|
    ensures |EncodeFields(fs, p, i)| == SizeFields(fs, p, i) + LongStringExcess(fs, p, i)
    decreases |fs| - i
  {
    hide EncodeArg, SizeField;
    if i < |fs| {
      AccountFields(fs, p, i + 1);
      if IsSet(fs, p, i) {
        AccountField(fs[i].domain, p.values[i]);
      }
    }
  }

  /** The computed size misses the two bytes of the class id and whatever sizeof misses of the long strings. */
  lemma SizeMissesClassId(classId: uint16, fs: seq<PropField>, p: Props)
    requires Holds(fs, p)
    ensures |EncodeContent(classId, fs, p)| == SizeContent(fs, p) + 2 + LongStringExcess(fs, p, 0)
  {
    AccountFields(fs, p, 0);
  }
}
