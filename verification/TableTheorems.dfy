/** What the field-table encoding guarantees: size accounting, when a round trip works, and normal forms. */
module TableTheorems {
  import opened Bytes
  import opened Streams
  import opened FieldTable
  import opened Wireformat
  import opened TableCodec
  import opened FloatBits

  // ---- counting the three kinds whose size and bytes disagree ----

  datatype Kind = Decimals | ByteArrays | Arrays

  /** How many values of that kind v holds, at any depth and counting v itself. */
  function Count(k: Kind, v: Value): nat
    decreases v, 0
  {
    match v
    case Decimal(_, _) => if k == Decimals then 1 else 0
    case ByteArray(_) => if k == ByteArrays then 1 else 0
    case FieldArray(vs) => CountElems(k, vs) + if k == Arrays then 1 else 0
    case FieldTable(es) => CountEntries(k, es)
    case _ => 0
  }

  function CountElems(k: Kind, vs: seq<Value>): nat
    decreases vs, 1
  {
    if vs == [] then 0 else Count(k, vs[0]) + CountElems(k, vs[1..])
  }

  function CountEntries(k: Kind, es: seq<Entry>): nat
    decreases es, 1
  {
    if es == [] then 0 else Count(k, es[0].value) + CountEntries(k, es[1..])
  }

  /** Bytes by which the computed size exceeds the bytes written. */
  function SurplusOf(v: Value): int {
    3 * Count(Decimals, v) + 4 * Count(ByteArrays, v) - 4 * Count(Arrays, v)
  }

  function SurplusOfElems(vs: seq<Value>): int {
    3 * CountElems(Decimals, vs) + 4 * CountElems(ByteArrays, vs) - 4 * CountElems(Arrays, vs)
  }

  function SurplusOfEntries(es: seq<Entry>): int {
    3 * CountEntries(Decimals, es) + 4 * CountEntries(ByteArrays, es) - 4 * CountEntries(Arrays, es)
  }

  /** None of the three kinds occurs. */
  predicate Plain(v: Value) {
    Count(Decimals, v) == 0 && Count(ByteArrays, v) == 0 && Count(Arrays, v) == 0
  }

  predicate PlainTable(es: seq<Entry>) {
    CountEntries(Decimals, es) == 0 && CountEntries(ByteArrays, es) == 0 && CountEntries(Arrays, es) == 0
  }

  /** Every table at every depth is a std::map. */
  predicate WellFormed(v: Value)
    decreases v, 0
  {
    match v
    case FieldArray(vs) => WellFormedElems(vs)
    case FieldTable(es) => WellFormedTable(es)
    case _ => true
  }

  predicate WellFormedElems(vs: seq<Value>)
    decreases vs, 1
  {
    vs == [] || (WellFormed(vs[0]) && WellFormedElems(vs[1..]))
  }

  predicate WellFormedEntries(es: seq<Entry>)
    decreases es, 1
  {
    es == [] || (WellFormed(es[0].value) && WellFormedEntries(es[1..]))
  }

  predicate WellFormedTable(es: seq<Entry>)
    decreases es, 2
  {
    Sorted(es) && WellFormedEntries(es)
  }

  // ---- size accounting ----

  lemma AccountLeaf(v: Value)
    requires !v.FieldArray? && !v.FieldTable?
    ensures |EncodeValue(v)| + SurplusOf(v) == 1 + SizeData(v)
  {
  }

  lemma AccountArray(vs: seq<Value>)
    requires |EncodeElems(vs)| + SurplusOfElems(vs) == SizeElems(vs)
    ensures |EncodeValue(FieldArray(vs))| + SurplusOf(FieldArray(vs)) == 1 + SizeData(FieldArray(vs))
  {
  }

  lemma AccountTable(es: seq<Entry>)
    requires |EncodeEntries(es)| + SurplusOfEntries(es) == SizeEntries(es)
    ensures |EncodeValue(FieldTable(es))| + SurplusOf(FieldTable(es)) == 1 + SizeData(FieldTable(es))
  {
  }

  /** Bytes written plus 3 per decimal plus 4 per byte array is the computed size plus 4 per array. */
  lemma {:induction false} AccountValue(v: Value)
    ensures |EncodeValue(v)| + SurplusOf(v) == 1 + SizeData(v)
    decreases v, 0
  {
    if v.FieldArray? {
      AccountElems(v.elems);
      AccountArray(v.elems);
    } else if v.FieldTable? {
      AccountEntries(v.entries);
      AccountTable(v.entries);
    } else {
      AccountLeaf(v);
    }
  }

  lemma {:induction false} AccountElems(vs: seq<Value>)
    ensures |EncodeElems(vs)| + SurplusOfElems(vs) == SizeElems(vs)
    decreases vs, 1
  {
    if vs != [] {
      AccountValue(vs[0]);
      AccountElems(vs[1..]);
    }
  }

  lemma {:induction false} AccountEntries(es: seq<Entry>)
    ensures |EncodeEntries(es)| + SurplusOfEntries(es) == SizeEntries(es)
    decreases es, 1
  {
    if es != [] {
      AccountValue(es[0].value);
      AccountEntries(es[1..]);
    }
  }

  /** The length a reader finds in the prefix. */
  function PrefixOf(es: seq<Entry>): nat { FromBE(TablePrefix(es)) }

  /** It is the number of bytes that follow, exactly under this condition. */
  lemma PrefixExactIff(es: seq<Entry>)
    ensures PrefixOf(es) == |EncodeEntries(es)|
       <==> |EncodeEntries(es)| < TWO32 && SurplusOfEntries(es) % TWO32 == 0
  {
    AccountEntries(es);
    FromBEOfBE(SizeEntries(es), 4);
    Pow256Values();
    SumModulo(SizeEntries(es), |EncodeEntries(es)|, SurplusOfEntries(es), TWO32);
  }

  lemma SumModulo(s: nat, n: nat, d: int, m: int)
    requires m > 0 && n + d == s
    ensures s % m == n <==> n < m && d % m == 0
  {
    if s % m == n {
      assert d == (s / m) * m;
      ModUnique(d, m, s / m, 0);
    }
    if n < m && d % m == 0 {
      ModUnique(s, m, d / m, n);
    }
  }

  /** The prefixes of all tables inside v, at every depth, equal the bytes they announce. */
  predicate PrefixesExact(v: Value)
    decreases v, 0
  {
    match v
    case FieldArray(vs) => PrefixesExactElems(vs)
    case FieldTable(es) => PrefixOf(es) == |EncodeEntries(es)| && PrefixesExactEntries(es)
    case _ => true
  }

  predicate PrefixesExactElems(vs: seq<Value>)
    decreases vs, 1
  {
    vs == [] || (PrefixesExact(vs[0]) && PrefixesExactElems(vs[1..]))
  }

  predicate PrefixesExactEntries(es: seq<Entry>)
    decreases es, 1
  {
    es == [] || (PrefixesExact(es[0].value) && PrefixesExactEntries(es[1..]))
  }

  lemma {:induction false} PlainPrefixes(v: Value)
    requires Plain(v) && |EncodeValue(v)| < TWO32
    ensures PrefixesExact(v)
    decreases v, 0
  {
    match v {
      case FieldTable(es) =>
        PrefixExactIff(es);
        PlainPrefixesEntries(es);
      case _ =>
    }
  }

  lemma {:induction false} PlainPrefixesEntries(es: seq<Entry>)
    requires PlainTable(es) && |EncodeEntries(es)| < TWO32
    ensures PrefixesExactEntries(es)
    decreases es, 1
  {
    if es != [] {
      PlainPrefixes(es[0].value);
      PlainPrefixesEntries(es[1..]);
    }
  }

  /** One decimal is enough to spoil the prefix. */
  lemma DecimalSpoilsPrefix(k: Key, m: uint8, x: int32)
    ensures PrefixOf([Entry(k, Decimal(m, x))]) == |EncodeEntries([Entry(k, Decimal(m, x))])| + 3
  {
    var e := Entry(k, Decimal(m, x));
    AccountEntries([e]);
    assert [e][1..] == [];
    assert SizeData(e.value) == 8 && SizeEntry(e) == 10 + |k|;
    assert CountEntries(Decimals, [e]) == Count(Decimals, e.value) == 1;
    assert CountEntries(ByteArrays, [e]) == Count(ByteArrays, e.value) == 0;
    assert CountEntries(Arrays, [e]) == Count(Arrays, e.value) == 0;
    assert SurplusOfEntries([e]) == 3;
    assert SizeEntries([e]) == 10 + |k|;
    FromBEOfBE(SizeEntries([e]), 4);
    Pow256Values();
  }

  // ---- arrays never decode ----

  /** The array loop cannot end except by an exception. */
  lemma {:induction false} ElemsNeverDecode(bs: bytes)
    ensures DecodeElems(bs) == None
    decreases |bs|
  {
    match DecodeValue(bs)
    case Err =>
    case Ok(_, rest) => ElemsNeverDecode(rest);
  }

  lemma ArrayNeverDecodes(bs: bytes)
    ensures DecodeTagged(0x41, bs) == Err
  {
    match DecodeLongString(bs)
    case Err =>
    case Ok(body, _) => ElemsNeverDecode(body);
  }

  // ---- what a reader must have consumed ----

  /** The least number of bytes a reader consumes to come up with v: its encoding, with a length for each byte array. */
  function Weight(v: Value): nat { |EncodeValue(v)| + 4 * Count(ByteArrays, v) }
  function WeightEntry(e: Entry): nat { 1 + |e.key| + Weight(e.value) }
  function WeightEntries(es: seq<Entry>): nat { |EncodeEntries(es)| + 4 * CountEntries(ByteArrays, es) }

  lemma WeightCons(e: Entry, t: seq<Entry>)
    ensures WeightEntries([e] + t) == WeightEntry(e) + WeightEntries(t)
    ensures CountEntries(Arrays, [e] + t) == Count(Arrays, e.value) + CountEntries(Arrays, t)
    ensures WellFormedEntries([e] + t) == (WellFormed(e.value) && WellFormedEntries(t))
  {
    assert ([e] + t)[1..] == t;
    assert EncodeEntries([e] + t) == EncodeEntry(e) + EncodeEntries(t);
    assert CountEntries(ByteArrays, [e] + t) == Count(ByteArrays, e.value) + CountEntries(ByteArrays, t);
  }

  lemma {:induction false} InsertWeight(t: seq<Entry>, e: Entry)
    ensures WeightEntries(Insert(t, e)) <= WeightEntries(t) + WeightEntry(e)
    ensures CountEntries(Arrays, t) == 0 && Count(Arrays, e.value) == 0 ==> CountEntries(Arrays, Insert(t, e)) == 0
    ensures WellFormedEntries(t) && WellFormed(e.value) ==> WellFormedEntries(Insert(t, e))
  {
    if t == [] {
      WeightCons(e, []);
      assert [e] + [] == [e];
    } else if e.key == t[0].key {
    } else {
      WeightCons(e, t);
      WeightCons(t[0], t[1..]);
      assert [t[0]] + t[1..] == t;
      InsertWeight(t[1..], e);
      WeightCons(t[0], Insert(t[1..], e));
    }
  }

  lemma {:induction false} InsertAllWeight(t: seq<Entry>, es: seq<Entry>)
    ensures WeightEntries(InsertAll(t, es)) <= WeightEntries(t) + WeightEntries(es)
    ensures CountEntries(Arrays, t) == 0 && CountEntries(Arrays, es) == 0
        ==> CountEntries(Arrays, InsertAll(t, es)) == 0
    ensures WellFormedEntries(t) && WellFormedEntries(es) ==> WellFormedEntries(InsertAll(t, es))
    decreases |es|
  {
    if es != [] {
      WeightCons(es[0], es[1..]);
      assert [es[0]] + es[1..] == es;
      InsertWeight(t, es[0]);
      InsertAllWeight(Insert(t, es[0]), es[1..]);
    }
  }

  lemma FromBitsTag(tag: byte, n: nat)
    requires WidthOf(tag) != 0 && n < Pow256(WidthOf(tag))
    ensures TagOf(FromBits(tag, n)) == tag
  {
    Pow256Values();
  }

  lemma DecodedFixed(tag: byte, n: nat)
    requires WidthOf(tag) != 0 && n < Pow256(WidthOf(tag))
    ensures Weight(FromBits(tag, n)) == 1 + WidthOf(tag)
    ensures Count(Arrays, FromBits(tag, n)) == 0 && WellFormed(FromBits(tag, n))
  {
    FromBitsTag(tag, n);
    assert IsFixed(FromBits(tag, n));
  }

  /** Whatever decodes is free of arrays, well formed, and took at least its weight to read. */
  lemma {:induction false} DecodedValue(bs: bytes)
    ensures match DecodeValue(bs)
            case Err => true
            case Ok(v, rest) => Weight(v) + |rest| <= |bs| && Count(Arrays, v) == 0 && WellFormed(v)
    decreases |bs|, 0
  {
    if bs != [] {
      DecodedTagged(bs[0], bs[1..]);
    }
  }

  lemma {:induction false} DecodedTagged(tag: byte, bs: bytes)
    ensures match DecodeTagged(tag, bs)
            case Err => true
            case Ok(v, rest) => Weight(v) + |rest| <= 1 + |bs| && Count(Arrays, v) == 0 && WellFormed(v)
    decreases |bs|, 2
  {
    if WidthOf(tag) != 0 {
      match ReadUint(bs, WidthOf(tag))
      case Err =>
      case Ok(n, _) => DecodedFixed(tag, n);
    } else if tag == 0x41 {
      ArrayNeverDecodes(bs);
    } else if tag == 0x46 {
      DecodedTable(bs);
    }
  }

  lemma {:induction false} DecodedEntries(bs: bytes)
    ensures match DecodeEntries(bs)
            case None => true
            case Some(es) => WeightEntries(es) <= |bs| && CountEntries(Arrays, es) == 0 && WellFormedEntries(es)
    decreases |bs|, 1
  {
    if bs != [] && DecodeEntries(bs).Some? {
      var key := DecodeShortString(bs);
      var e, rest := DecodeEntry(bs).value, DecodeEntry(bs).rest;
      DecodedValue(key.rest);
      DecodedEntries(rest);
      WeightCons(e, DecodeEntries(rest).value);
    }
  }

  lemma {:induction false} DecodedTable(bs: bytes)
    ensures match DecodeTable(bs)
            case Err => true
            case Ok(es, rest) =>
              4 + WeightEntries(es) + |rest| <= |bs| && CountEntries(Arrays, es) == 0 && WellFormedTable(es)
    decreases |bs|, 0
  {
    match DecodeLongString(bs)
    case Err =>
    case Ok(body, rest) =>
      DecodedEntries(body);
      match DecodeEntries(body)
      case None =>
      case Some(es) =>
        InsertAllWeight([], es);
        InsertAllFirstWins([], es, []);
  }

  /** A table that decodes has consumed exactly its four-byte prefix and the length it declares. */
  lemma TableConsumesDeclaredLength(bs: bytes)
    requires DecodeTable(bs).Ok?
    ensures |bs| >= 4 && |bs| == 4 + FromBE(bs[..4]) + |DecodeTable(bs).rest|
  {
  }

  // ---- round trips ----

  /** What a value without decimals, arrays and byte arrays turns into: doubles lose their high half. */
  function Degrade(v: Value): Value
    decreases v, 0
  {
    match v
    case Double(d) => Double(ReadDouble(d))
    case FieldTable(es) => FieldTable(DegradeEntries(es))
    case _ => v
  }

  function DegradeEntries(es: seq<Entry>): (r: seq<Entry>)
    ensures |r| == |es| && forall i :: 0 <= i < |es| ==> r[i].key == es[i].key
    decreases es, 1
  {
    if es == [] then [] else [Entry(es[0].key, Degrade(es[0].value))] + DegradeEntries(es[1..])
  }

  predicate DoublesZero(v: Value)
    decreases v, 0
  {
    match v
    case Double(d) => d == 0
    case FieldTable(es) => DoublesZeroEntries(es)
    case _ => true
  }

  predicate DoublesZeroEntries(es: seq<Entry>)
    decreases es, 1
  {
    es == [] || (DoublesZero(es[0].value) && DoublesZeroEntries(es[1..]))
  }

  lemma {:induction false} DegradeFixed(v: Value)
    ensures Degrade(v) == v <==> DoublesZero(v)
    decreases v, 0
  {
    match v {
      case Double(d) => DoubleSurvivesIffZero(d);
      case FieldTable(es) => DegradeFixedEntries(es);
      case _ =>
    }
  }

  lemma {:induction false} DegradeFixedEntries(es: seq<Entry>)
    ensures DegradeEntries(es) == es <==> DoublesZeroEntries(es)
    decreases es, 1
  {
    if es != [] {
      DegradeFixed(es[0].value);
      DegradeFixedEntries(es[1..]);
      assert es == [es[0]] + es[1..];
      assert DegradeEntries(es)[1..] == DegradeEntries(es[1..]);
      assert DegradeEntries(es)[0] == Entry(es[0].key, Degrade(es[0].value));
    }
  }

  lemma {:induction false} SortedSameKeys(s: seq<Entry>, t: seq<Entry>)
    requires Sorted(s) && |s| == |t| && forall i :: 0 <= i < |s| ==> s[i].key == t[i].key
    ensures Sorted(t)
  {
    if |s| > 1 {
      SortedSameKeys(s[1..], t[1..]);
    }
  }

  lemma FixedRoundTrip(v: Value)
    requires IsFixed(v)
    ensures FromBits(TagOf(v), BitsOf(v)) == Degrade(v)
  {
    Pow256Values();
  }

  lemma EncodeFixed(v: Value)
    requires IsFixed(v)
    ensures EncodeValue(v) == [TagOf(v)] + BE(BitsOf(v), WidthOf(TagOf(v)))
  {
  }

  lemma DecodeFixedTag(tag: byte, n: nat, r: bytes)
    requires WidthOf(tag) != 0 && n < Pow256(WidthOf(tag))
    ensures DecodeTagged(tag, BE(n, WidthOf(tag)) + r) == Ok(FromBits(tag, n), r)
  {
    ReadUintIff(BE(n, WidthOf(tag)) + r, WidthOf(tag), n, r);
  }

  lemma DecodeFixed(v: Value, r: bytes)
    requires IsFixed(v)
    ensures DecodeValue(EncodeValue(v) + r) == Ok(Degrade(v), r)
  {
    var tag, n := TagOf(v), BitsOf(v);
    EncodeFixed(v);
    FixedRoundTrip(v);
    DecodeFixedTag(tag, n, r);
    Regroup([tag], BE(n, WidthOf(tag)), r);
    DecodeTag(tag, BE(n, WidthOf(tag)) + r);
  }

  lemma DecodeTag(tag: byte, tail: bytes)
    ensures DecodeValue([tag] + tail) == DecodeTagged(tag, tail)
  {
    assert ([tag] + tail)[1..] == tail;
  }

  lemma EncodeNested(es: seq<Entry>)
    ensures EncodeValue(FieldTable(es)) == [0x46] + EncodeTable(es)
  {
  }

  lemma DecodeString(s: bytes, r: bytes)
    requires |s| < TWO32
    ensures DecodeValue(EncodeValue(LongString(s)) + r) == Ok(LongString(s), r)
  {
    var bs := EncodeValue(LongString(s)) + r;
    assert bs[0] == 0x53 && bs[1..] == EncodeLongString(s) + r;
    LongStringIff(bs[1..], s, r);
  }

  lemma DecodeNested(es: seq<Entry>, r: bytes, d: seq<Entry>)
    requires DecodeTable(EncodeTable(es) + r) == Ok(d, r)
    ensures DecodeValue(EncodeValue(FieldTable(es)) + r) == Ok(FieldTable(d), r)
  {
    EncodeNested(es);
    Regroup([0x46], EncodeTable(es), r);
    DecodeTag(0x46, EncodeTable(es) + r);
  }

  /** Reading what was written gives the degraded value and stops exactly at the suffix. */
  lemma {:induction false} ReadAfterWrite(v: Value, r: bytes)
    requires WellFormed(v) && Plain(v) && |EncodeValue(v)| < TWO32
    ensures DecodeValue(EncodeValue(v) + r) == Ok(Degrade(v), r)
    decreases v, 0
  {
    match v {
      case LongString(s) =>
        DecodeString(s, r);
      case FieldTable(es) =>
        ReadTableAfterWrite(es, r);
        DecodeNested(es, r, DegradeEntries(es));
      case Void =>
        assert ([TagOf(v)] + r)[1..] == r;
      case _ =>
        DecodeFixed(v, r);
    }
  }

  lemma DecodeEntryAfterWrite(e: Entry, v: Value, tail: bytes)
    requires DecodeValue(EncodeValue(e.value) + tail) == Ok(v, tail)
    ensures DecodeEntry(EncodeEntry(e) + tail) == Ok(Entry(e.key, v), tail)
  {
    Regroup(EncodeShortString(e.key), EncodeValue(e.value), tail);
    ShortStringIff(EncodeEntry(e) + tail, e.key, EncodeValue(e.value) + tail);
  }

  lemma DecodeEntriesStep(bs: bytes, e: Entry, rest: bytes, es: seq<Entry>)
    requires DecodeEntry(bs) == Ok(e, rest) && DecodeEntries(rest) == Some(es)
    ensures DecodeEntries(bs) == Some([e] + es)
  {
  }

  lemma {:induction false} ReadEntriesAfterWrite(es: seq<Entry>)
    requires WellFormedEntries(es) && PlainTable(es) && |EncodeEntries(es)| < TWO32
    ensures DecodeEntries(EncodeEntries(es)) == Some(DegradeEntries(es))
    decreases es, 1
  {
    if es != [] {
      var e, tail := es[0], EncodeEntries(es[1..]);
      ReadAfterWrite(e.value, tail);
      DecodeEntryAfterWrite(e, Degrade(e.value), tail);
      ReadEntriesAfterWrite(es[1..]);
      DecodeEntriesStep(EncodeEntries(es), Entry(e.key, Degrade(e.value)), tail, DegradeEntries(es[1..]));
    }
  }

  lemma DecodeTableBody(body: bytes, es: seq<Entry>, r: bytes)
    requires |body| < TWO32 && DecodeEntries(body) == Some(es) && Sorted(es)
    ensures DecodeTable(EncodeLongString(body) + r) == Ok(es, r)
  {
    LongStringIff(EncodeLongString(body) + r, body, r);
    assert [] + es == es;
    InsertAllSorted([], es);
  }

  lemma {:induction false} ReadTableAfterWrite(es: seq<Entry>, r: bytes)
    requires WellFormedTable(es) && PlainTable(es) && |EncodeEntries(es)| < TWO32
    ensures DecodeTable(EncodeTable(es) + r) == Ok(DegradeEntries(es), r)
    decreases es, 2
  {
    AccountEntries(es);
    assert EncodeTable(es) == EncodeLongString(EncodeEntries(es));
    ReadEntriesAfterWrite(es);
    SortedSameKeys(es, DegradeEntries(es));
    DecodeTableBody(EncodeEntries(es), DegradeEntries(es), r);
  }

  /** The tables that survive the wire: a condition on the table alone. */
  predicate Exact(es: seq<Entry>) {
    PlainTable(es) && DoublesZeroEntries(es) && |EncodeEntries(es)| < TWO32
  }

  lemma {:induction false} DecimalBytes(v: Value)
    ensures 6 * Count(Decimals, v) <= |EncodeValue(v)|
    decreases v, 0
  {
    match v {
      case FieldArray(vs) => DecimalBytesElems(vs);
      case FieldTable(es) => DecimalBytesEntries(es);
      case _ =>
    }
  }

  lemma {:induction false} DecimalBytesElems(vs: seq<Value>)
    ensures 6 * CountElems(Decimals, vs) <= |EncodeElems(vs)|
    decreases vs, 1
  {
    if vs != [] {
      DecimalBytes(vs[0]);
      DecimalBytesElems(vs[1..]);
    }
  }

  lemma {:induction false} DecimalBytesEntries(es: seq<Entry>)
    ensures 6 * CountEntries(Decimals, es) <= |EncodeEntries(es)|
    decreases es, 1
  {
    if es != [] {
      DecimalBytes(es[0].value);
      DecimalBytesEntries(es[1..]);
    }
  }

  /** A table comes back whole, with the cursor exactly behind it, if and only if it is exact. */
  lemma TableRoundTripIff(es: seq<Entry>, r: bytes)
    requires WellFormedTable(es)
    ensures DecodeTable(EncodeTable(es) + r) == Ok(es, r) <==> Exact(es)
  {
    DegradeFixedEntries(es);
    if Exact(es) {
      ReadTableAfterWrite(es, r);
    }
    if DecodeTable(EncodeTable(es) + r) == Ok(es, r) {
      OnlyPlainTablesSurvive(es, r);
      ReadTableAfterWrite(es, r);
    }
  }

  lemma OnlyPlainTablesSurvive(es: seq<Entry>, r: bytes)
    requires DecodeTable(EncodeTable(es) + r) == Ok(es, r)
    ensures PlainTable(es) && |EncodeEntries(es)| < TWO32
  {
    DecodedTable(EncodeTable(es) + r);
    SurvivorPrefix(es, r);
    PrefixExactIff(es);
    DecimalBytesEntries(es);
    SmallMultiple(SurplusOfEntries(es), CountEntries(Decimals, es), |EncodeEntries(es)|);
  }

  lemma SurvivorPrefix(es: seq<Entry>, r: bytes)
    requires DecodeTable(EncodeTable(es) + r) == Ok(es, r)
    ensures PrefixOf(es) == |EncodeEntries(es)|
  {
    var bs := EncodeTable(es) + r;
    TableConsumesDeclaredLength(bs);
    assert bs[..4] == TablePrefix(es);
  }

  lemma SmallMultiple(s: int, d: nat, n: nat)
    requires s == 3 * d && s % TWO32 == 0 && 6 * d <= n < TWO32
    ensures d == 0
  {
    ModUnique(s, TWO32, 0, s);
  }

  /** Encodings of exact tables are self-delimiting: equal streams carry equal tables and equal rests. */
  lemma ExactTablesPrefixFree(s: seq<Entry>, t: seq<Entry>, q: bytes, r: bytes)
    requires WellFormedTable(s) && WellFormedTable(t) && Exact(s) && Exact(t)
    requires EncodeTable(s) + q == EncodeTable(t) + r
    ensures s == t && q == r
  {
    TableRoundTripIff(s, q);
    TableRoundTripIff(t, r);
  }

  // ---- normal forms ----

  /**
   * Bytes that decode are normalised by re-encoding: the table read holds, in key order, the first
   * entry of every key on the wire; writing it takes no more bytes than were consumed; and it reads
   * back as itself exactly when it has no decimal, no byte array and no double but zero.
   */
  lemma DecodingNormalises(bs: bytes, r: bytes)
    requires DecodeTable(bs).Ok?
    ensures var t := DecodeTable(bs).value;
            var wire := DecodeEntries(DecodeLongString(bs).value).value;
            && WellFormedTable(t)
            && (forall k: Key :: Lookup(t, k) == Lookup(wire, k))
            && |EncodeTable(t)| + |DecodeTable(bs).rest| <= |bs|
            && (DecodeTable(EncodeTable(t) + r) == Ok(t, r)
                <==> CountEntries(Decimals, t) == 0 && CountEntries(ByteArrays, t) == 0 && DoublesZeroEntries(t))
  {
    var t := DecodeTable(bs).value;
    var wire := DecodeEntries(DecodeLongString(bs).value).value;
    DecodedTable(bs);
    forall k: Key ensures Lookup(t, k) == Lookup(wire, k) {
      InsertAllFirstWins([], wire, k);
      assert [] + wire == wire;
    }
    TableRoundTripIff(t, r);
  }
}
