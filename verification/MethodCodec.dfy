/**
 * The generated method codec (codegen.py) over an arbitrary schema: a list of argument domains.
 * Each maximal run of bit arguments travels as one bit field.
 */
module MethodCodec {
  import opened Bytes
  import opened Bits
  import opened Wireformat
  import opened FieldTable
  import opened TableCodec
  import opened TableTheorems

  datatype Domain = Octet | Short | Long | LongLong | ShortStr | LongStr | Bit | Table | Timestamp

  datatype Arg = Num(n: nat) | Str(s: bytes) | Flag(b: bool) | Tab(t: seq<Entry>)

  /** The bytes of an integer domain; 0 for the others. */
  function NumWidth(d: Domain): nat {
    match d
    case Octet => 1
    case Short => 2
    case Long => 4
    case LongLong => 8
    case Timestamp => 8
    case _ => 0
  }

  /** The value a field of that domain can hold, string lengths as the setters enforce them. */
  predicate Fits(d: Domain, a: Arg) {
    match d
    case ShortStr => a.Str? && |a.s| <= 255
    case LongStr => a.Str? && |a.s| < TWO32
    case Bit => a.Flag?
    case Table => a.Tab? && WellFormedTable(a.t)
    case _ => a.Num? && a.n < Pow256(NumWidth(d))
  }

  predicate Typed(ds: seq<Domain>, args: seq<Arg>) {
    |ds| == |args| && forall i :: 0 <= i < |ds| ==> Fits(ds[i], args[i])
  }

  // ---- runs of bits ----

  predicate IsBit(ds: seq<Domain>, i: int) { 0 <= i < |ds| && ds[i] == Bit }

  /** First index of the run of bits that ends just before i. */
  function RunStart(ds: seq<Domain>, i: nat): (s: nat)
    requires i <= |ds|
    ensures s <= i && !IsBit(ds, s - 1)
    ensures forall k :: s <= k < i ==> IsBit(ds, k)
  {
    if IsBit(ds, i - 1) then RunStart(ds, i - 1) else i
  }

  /** First index at or after i that is not a bit. */
  function RunEnd(ds: seq<Domain>, i: nat): (e: nat)
    requires i <= |ds|
    ensures i <= e <= |ds| && !IsBit(ds, e)
    ensures forall k :: i <= k < e ==> IsBit(ds, k)
    decreases |ds| - i
  {
    if IsBit(ds, i) then RunEnd(ds, i + 1) else i
  }

  const MAX_RUN: nat := 31

  /** The shifts in bitset.h are on int, so a run has at most 31 bits. */
  ghost predicate RunsFit(ds: seq<Domain>) {
    forall i :: 0 <= i <= |ds| ==> RunEnd(ds, i) - i <= MAX_RUN
  }

  lemma {:induction false} EndOfRun(ds: seq<Domain>, i: nat, j: nat)
    requires i <= j <= |ds| && forall k :: i <= k < j ==> IsBit(ds, k)
    ensures RunEnd(ds, i) == RunEnd(ds, j)
    decreases j - i
  {
    if i < j {
      EndOfRun(ds, i + 1, j);
    }
  }

  method GetBitsNumber(index: nat, ds: seq<Domain>) returns (n: nat)
    requires index <= |ds|
    ensures n == index - RunStart(ds, index)
  {
    var start := index;
    while start > 0 && ds[start - 1] == Bit
      invariant 0 <= start <= index && RunStart(ds, start) == RunStart(ds, index)
    {
      start := start - 1;
    }
    n := index - start;
  }

  method GetBitsLength(index: nat, ds: seq<Domain>) returns (n: nat)
    requires index <= |ds|
    ensures n == RunEnd(ds, index) - RunStart(ds, index)
  {
    var start := index;
    while start > 0 && ds[start - 1] == Bit
      invariant 0 <= start <= index && RunStart(ds, start) == RunStart(ds, index)
    {
      start := start - 1;
    }
    var end := index;
    while end < |ds| && ds[end] == Bit
      invariant index <= end <= |ds| && RunEnd(ds, end) == RunEnd(ds, index)
    {
      end := end + 1;
    }
    n := end - start;
  }

  /** Bytes of the field that carries a run of that length; the generator refuses more than 64 bits. */
  function FieldBytes(length: nat): (k: nat)
    requires length <= 64
    ensures length <= 8 * k && k in {1, 2, 4, 8}
    ensures length <= MAX_RUN ==> 8 * k <= INT_BITS && k in {1, 2, 4}
  {
    if length <= 8 then 1 else if length <= 16 then 2 else if length <= 32 then 4 else 8
  }

  function BitfieldSize(length: nat): nat
    requires length <= MAX_RUN
  {
    8 * FieldBytes(length)
  }

  function FlagOf(a: Arg): bool { a.Flag? && a.b }

  /** The set_bit calls for arguments s..e of one run. */
  function FlagWrites(args: seq<Arg>, s: nat, e: nat): (ws: seq<BitWrite>)
    requires s <= e <= |args|
    ensures |ws| == e - s && forall k :: 0 <= k < e - s ==> ws[k] == BitWrite(k, FlagOf(args[s + k]))
  {
    seq(e - s, k requires 0 <= k < e - s => BitWrite(k, FlagOf(args[s + k])))
  }

  function Pack(args: seq<Arg>, s: nat, e: nat, length: nat): (bits: nat)
    requires s <= e <= |args| && e - s <= length <= MAX_RUN
    ensures bits < Pow2(BitfieldSize(length))
  {
    FoldBits(BitfieldSize(length), FlagWrites(args, s, e))
  }

  lemma PackStep(args: seq<Arg>, s: nat, e: nat, length: nat)
    requires s <= e < |args| && e - s < length <= MAX_RUN
    ensures Field(BitfieldSize(length), Pack(args, s, e, length), e - s)
    ensures Pack(args, s, e + 1, length)
         == SetBit(BitfieldSize(length), Pack(args, s, e, length), FlagOf(args[e]), e - s)
  {
    FlagWritesStep(args, s, e);
  }

  lemma FlagWritesStep(args: seq<Arg>, s: nat, e: nat)
    requires s <= e < |args|
    ensures FlagWrites(args, s, e + 1)[..e - s] == FlagWrites(args, s, e)
  {
  }

  lemma PackRecovers(args: seq<Arg>, s: nat, e: nat, length: nat, k: nat)
    requires s <= e <= |args| && e - s <= length <= MAX_RUN && k < e - s
    ensures GetBit(Pack(args, s, e, length), k) == FlagOf(args[s + k])
  {
    AnyOrderRecovers(BitfieldSize(length), FlagWrites(args, s, e), k);
  }

  lemma PackFitsBytes(bits: nat, length: nat)
    requires length <= MAX_RUN && bits < Pow2(BitfieldSize(length))
    ensures bits < Pow256(FieldBytes(length))
  {
    Pow2Bytes(FieldBytes(length));
  }

  /** The bits k..m of a field as arguments. */
  function FlagArgs(bits: nat, k: nat, m: nat): (r: seq<Arg>)
    requires k <= m
    ensures |r| == m - k && forall j :: 0 <= j < m - k ==> r[j] == Flag(GetBit(bits, k + j))
  {
    seq(m - k, j requires 0 <= j < m - k => Flag(GetBit(bits, k + j)))
  }

  // ---- what goes on the wire ----

  function EncodeArg(d: Domain, a: Arg): bytes
    requires d != Bit && Fits(d, a)
  {
    if d == ShortStr then EncodeShortString(a.s)
    else if d == LongStr then EncodeLongString(a.s)
    else if d == Table then EncodeTable(a.t)
    else BE(a.n, NumWidth(d))
  }

  /** The run that starts at i: its length, its bits and the field on the wire. */
  function RunLength(ds: seq<Domain>, i: nat): nat
    requires i <= |ds|
  {
    RunEnd(ds, i) - i
  }

  function FieldValue(ds: seq<Domain>, args: seq<Arg>, i: nat): nat
    requires Typed(ds, args) && RunsFit(ds) && i <= |ds|
  {
    Pack(args, i, RunEnd(ds, i), RunLength(ds, i))
  }

  function BitField(ds: seq<Domain>, args: seq<Arg>, i: nat): bytes
    requires Typed(ds, args) && RunsFit(ds) && i <= |ds|
  {
    BE(FieldValue(ds, args, i), FieldBytes(RunLength(ds, i)))
  }

  /** Arguments i and up, i not inside a run: one bit field per maximal run. */
  function EncodeFrom(ds: seq<Domain>, args: seq<Arg>, i: nat): bytes
    requires Typed(ds, args) && RunsFit(ds) && i <= |ds|
    decreases |ds| - i
  {
    if i == |ds| then []
    else if IsBit(ds, i) then
      BitField(ds, args, i) + EncodeFrom(ds, args, RunEnd(ds, i))
    else EncodeArg(ds[i], args[i]) + EncodeFrom(ds, args, i + 1)
  }

  /** validate_shortstring: at most 255 bytes and no embedded NUL. */
  predicate ValidShortString(s: bytes) { |s| <= 255 && 0 !in s }

  function DecodeRaw(d: Domain, bs: bytes): (r: Parsed<Arg>)
    requires d != Bit
    ensures r.Ok? ==> |r.rest| <= |bs|
  {
    if d == ShortStr then
      match DecodeShortString(bs)
      case Err => Err
      case Ok(s, rest) => Ok(Str(s), rest)
    else if d == LongStr then
      match DecodeLongString(bs)
      case Err => Err
      case Ok(s, rest) => Ok(Str(s), rest)
    else if d == Table then
      match DecodeTable(bs)
      case Err => Err
      case Ok(t, rest) => Ok(Tab(t), rest)
    else
      match ReadUint(bs, NumWidth(d))
      case Err => Err
      case Ok(n, rest) => Ok(Num(n), rest)
  }

  /** What the setter of the field accepts. */
  predicate SetterAccepts(d: Domain, a: Arg) { d == ShortStr && a.Str? ==> ValidShortString(a.s) }

  /** A value read into a method passes through the setter of its field. */
  function DecodeArg(d: Domain, bs: bytes): (r: Parsed<Arg>)
    requires d != Bit
    ensures r.Ok? ==> |r.rest| <= |bs|
  {
    match DecodeRaw(d, bs)
    case Err => Err
    case Ok(a, rest) => if SetterAccepts(d, a) then Ok(a, rest) else Err
  }

  function DecodeFrom(ds: seq<Domain>, bs: bytes, i: nat): (r: Parsed<seq<Arg>>)
    requires RunsFit(ds) && i <= |ds|
    ensures r.Ok? ==> |r.value| == |ds| - i
    decreases |ds| - i
  {
    if i == |ds| then Ok([], bs)
    else if IsBit(ds, i) then
      match ReadUint(bs, FieldBytes(RunLength(ds, i)))
      case Err => Err
      case Ok(bits, rest) => Prepend(FlagArgs(bits, 0, RunLength(ds, i)), DecodeFrom(ds, rest, RunEnd(ds, i)))
    else
      match DecodeArg(ds[i], bs)
      case Err => Err
      case Ok(a, rest) => Prepend([a], DecodeFrom(ds, rest, i + 1))
  }

  // ---- round trip ----

  /** The arguments that survive the wire: a condition on the values alone. */
  predicate Survives(d: Domain, a: Arg) {
    match d
    case ShortStr => a.Str? && 0 !in a.s
    case Table => a.Tab? && Exact(a.t)
    case _ => true
  }

  ghost predicate AllSurvive(ds: seq<Domain>, args: seq<Arg>, i: nat)
    requires |ds| == |args|
  {
    forall k :: i <= k < |ds| ==> Survives(ds[k], args[k])
  }

  lemma RawRoundTripIff(d: Domain, a: Arg, r: bytes)
    requires d != Bit && Fits(d, a)
    ensures DecodeRaw(d, EncodeArg(d, a) + r) == Ok(a, r) <==> (a.Tab? ==> Exact(a.t))
  {
    if d == ShortStr {
      ShortStringIff(EncodeArg(d, a) + r, a.s, r);
    } else if d == LongStr {
      LongStringIff(EncodeArg(d, a) + r, a.s, r);
    } else if d == Table {
      TableRoundTripIff(a.t, r);
    } else {
      ReadUintIff(EncodeArg(d, a) + r, NumWidth(d), a.n, r);
    }
  }

  lemma ArgRoundTripIff(d: Domain, a: Arg, r: bytes)
    requires d != Bit && Fits(d, a)
    ensures DecodeArg(d, EncodeArg(d, a) + r) == Ok(a, r) <==> Survives(d, a)
  {
    RawRoundTripIff(d, a, r);
  }

  lemma TableSuffix(bs: bytes)
    requires DecodeTable(bs).Ok?
    ensures DecodeTable(bs).rest == bs[|bs| - |DecodeTable(bs).rest|..]
  {
    var r := DecodeLongString(bs);
    assert r.rest == bs[4..][|r.value|..];
  }

  /** A reader never takes fewer bytes than the argument it returns is written with. */
  lemma ArgConsumes(d: Domain, bs: bytes)
    requires d != Bit && DecodeArg(d, bs).Ok?
    ensures var r := DecodeArg(d, bs);
            && Fits(d, r.value) && r.rest == bs[|bs| - |r.rest|..]
            && |EncodeArg(d, r.value)| + |r.rest| <= |bs|
  {
    if d == LongStr {
      var r := DecodeLongString(bs);
      assert r.rest == bs[4..][|r.value|..];
    } else if d == Table {
      DecodedTable(bs);
      TableSuffix(bs);
    }
  }

  lemma {:induction false} ArgsConsume(ds: seq<Domain>, bs: bytes, i: nat, all: seq<Arg>)
    requires RunsFit(ds) && i <= |ds| && Typed(ds, all)
    requires DecodeFrom(ds, bs, i).Ok? && DecodeFrom(ds, bs, i).value == all[i..]
    ensures |EncodeFrom(ds, all, i)| + |DecodeFrom(ds, bs, i).rest| <= |bs|
    decreases |ds| - i
  {
    if i == |ds| {
    } else if IsBit(ds, i) {
      var e := RunEnd(ds, i);
      var rest := ReadUint(bs, FieldBytes(e - i)).rest;
      assert all[e..] == all[i..][e - i..] == DecodeFrom(ds, rest, e).value;
      ArgsConsume(ds, rest, e, all);
    } else {
      var a := DecodeArg(ds[i], bs);
      assert all[i] == a.value && all[i + 1..] == all[i..][1..] == DecodeFrom(ds, a.rest, i + 1).value;
      ArgConsumes(ds[i], bs);
      ArgsConsume(ds, a.rest, i + 1, all);
    }
  }

  lemma BitFieldReads(ds: seq<Domain>, args: seq<Arg>, i: nat, tail: bytes)
    requires Typed(ds, args) && RunsFit(ds) && IsBit(ds, i)
    ensures ReadUint(BitField(ds, args, i) + tail, FieldBytes(RunLength(ds, i))) == Ok(FieldValue(ds, args, i), tail)
  {
    var k, bits := FieldBytes(RunLength(ds, i)), FieldValue(ds, args, i);
    PackFitsBytes(bits, RunLength(ds, i));
    ReadUintIff(BE(bits, k) + tail, k, bits, tail);
  }

  lemma PackUnpacks(args: seq<Arg>, s: nat, e: nat, length: nat)
    requires s <= e <= |args| && e - s == length <= MAX_RUN
    requires forall k :: s <= k < e ==> args[k].Flag?
    ensures FlagArgs(Pack(args, s, e, length), 0, length) == args[s..e]
  {
    var bits := Pack(args, s, e, length);
    forall k | 0 <= k < length ensures FlagArgs(bits, 0, length)[k] == args[s..e][k] {
      PackRecovers(args, s, e, length, k);
      assert args[s + k].Flag?;
    }
  }

  lemma BitFieldUnpacks(ds: seq<Domain>, args: seq<Arg>, i: nat)
    requires Typed(ds, args) && RunsFit(ds) && IsBit(ds, i)
    ensures FlagArgs(FieldValue(ds, args, i), 0, RunLength(ds, i)) == args[i..RunEnd(ds, i)]
  {
    forall k | i <= k < RunEnd(ds, i) ensures args[k].Flag? {
      assert IsBit(ds, k);
    }
    PackUnpacks(args, i, RunEnd(ds, i), RunLength(ds, i));
  }

  lemma DecodeRun(ds: seq<Domain>, bs: bytes, i: nat, bits: nat, rest: bytes)
    requires RunsFit(ds) && IsBit(ds, i)
    requires ReadUint(bs, FieldBytes(RunLength(ds, i))) == Ok(bits, rest)
    ensures DecodeFrom(ds, bs, i)
         == Prepend(FlagArgs(bits, 0, RunLength(ds, i)), DecodeFrom(ds, rest, RunEnd(ds, i)))
  {
  }

  lemma EncodeRun(ds: seq<Domain>, args: seq<Arg>, i: nat, r: bytes)
    requires Typed(ds, args) && RunsFit(ds) && IsBit(ds, i)
    ensures EncodeFrom(ds, args, i) + r == BitField(ds, args, i) + (EncodeFrom(ds, args, RunEnd(ds, i)) + r)
  {
  }

  lemma BitRunStep(ds: seq<Domain>, args: seq<Arg>, i: nat, r: bytes)
    requires Typed(ds, args) && RunsFit(ds) && IsBit(ds, i)
    ensures var e := RunEnd(ds, i);
            DecodeFrom(ds, EncodeFrom(ds, args, i) + r, i)
            == Prepend(args[i..e], DecodeFrom(ds, EncodeFrom(ds, args, e) + r, e))
  {
    var e := RunEnd(ds, i);
    var rest := EncodeFrom(ds, args, e) + r;
    EncodeRun(ds, args, i, r);
    DecodeField(ds, args, i, rest);
  }

  lemma DecodeField(ds: seq<Domain>, args: seq<Arg>, i: nat, rest: bytes)
    requires Typed(ds, args) && RunsFit(ds) && IsBit(ds, i)
    ensures DecodeFrom(ds, BitField(ds, args, i) + rest, i)
         == Prepend(args[i..RunEnd(ds, i)], DecodeFrom(ds, rest, RunEnd(ds, i)))
  {
    BitFieldReads(ds, args, i, rest);
    BitFieldUnpacks(ds, args, i);
    DecodeRun(ds, BitField(ds, args, i) + rest, i, FieldValue(ds, args, i), rest);
  }

  lemma SplitArgs(args: seq<Arg>, i: nat, e: nat)
    requires i <= e <= |args|
    ensures args[i..] == args[i..e] + args[e..]
  {
  }

  lemma BitRunIff(ds: seq<Domain>, args: seq<Arg>, i: nat, r: bytes)
    requires Typed(ds, args) && RunsFit(ds) && IsBit(ds, i)
    ensures var e := RunEnd(ds, i);
            DecodeFrom(ds, EncodeFrom(ds, args, i) + r, i) == Ok(args[i..], r)
            <==> DecodeFrom(ds, EncodeFrom(ds, args, e) + r, e) == Ok(args[e..], r)
  {
    var e := RunEnd(ds, i);
    BitRunStep(ds, args, i, r);
    PrependIff(DecodeFrom(ds, EncodeFrom(ds, args, e) + r, e), args[i..e], args[e..], r);
    SplitArgs(args, i, e);
  }

  lemma SurviveRun(ds: seq<Domain>, args: seq<Arg>, i: nat)
    requires Typed(ds, args) && i <= |ds|
    ensures AllSurvive(ds, args, i) <==> AllSurvive(ds, args, RunEnd(ds, i))
  {
    forall k | i <= k < RunEnd(ds, i) ensures Survives(ds[k], args[k]) {
      assert IsBit(ds, k);
    }
  }

  /** Reading what was written returns the same arguments and stops at the suffix, if and only if each one survives. */
  lemma {:induction false} ArgsRoundTripIff(ds: seq<Domain>, args: seq<Arg>, i: nat, r: bytes)
    requires Typed(ds, args) && RunsFit(ds) && i <= |ds|
    ensures DecodeFrom(ds, EncodeFrom(ds, args, i) + r, i) == Ok(args[i..], r) <==> AllSurvive(ds, args, i)
    decreases |ds| - i
  {
    if i == |ds| {
      assert [] + r == r;
    } else if IsBit(ds, i) {
      BitRunIff(ds, args, i, r);
      ArgsRoundTripIff(ds, args, RunEnd(ds, i), r);
      SurviveRun(ds, args, i);
    } else {
      OneArgStep(ds, args, i, r);
      ArgsRoundTripIff(ds, args, i + 1, r);
    }
  }

  lemma OneArgStep(ds: seq<Domain>, args: seq<Arg>, i: nat, r: bytes)
    requires Typed(ds, args) && RunsFit(ds) && i < |ds| && !IsBit(ds, i)
    ensures DecodeFrom(ds, EncodeFrom(ds, args, i) + r, i) == Ok(args[i..], r)
       <==> Survives(ds[i], args[i])
            && DecodeFrom(ds, EncodeFrom(ds, args, i + 1) + r, i + 1) == Ok(args[i + 1..], r)
  {
    hide DecodeArg, EncodeArg, Survives, FieldBytes, RunsFit;
    var d, a := ds[i], args[i];
    var tail := EncodeFrom(ds, args, i + 1) + r;
    var bs := EncodeArg(d, a) + tail;
    Regroup(EncodeArg(d, a), EncodeFrom(ds, args, i + 1), r);
    ArgRoundTripIff(d, a, tail);
    assert args[i..] == [a] + args[i + 1..];
    if DecodeFrom(ds, bs, i) == Ok(args[i..], r) {
      var rest := DecodeArg(d, bs).rest;
      assert DecodeFrom(ds, rest, i + 1).value == args[i..][1..];
      ArgConsumes(d, bs);
      ArgsConsume(ds, rest, i + 1, args);
      assert |rest| == |tail|;
      assert rest == tail;
    }
  }

  // ---- sizes ----

  function SizeArg(d: Domain, a: Arg): nat
    requires d != Bit && Fits(d, a)
  {
    match d
    case ShortStr => 1 + |a.s|
    case LongStr => 4 + |a.s|
    case Table => 4 + SizeEntries(a.t)
    case _ => NumWidth(d)
  }

  function SizeFrom(ds: seq<Domain>, args: seq<Arg>, i: nat): nat
    requires Typed(ds, args) && RunsFit(ds) && i <= |ds|
    decreases |ds| - i
  {
    if i == |ds| then 0
    else if IsBit(ds, i) then FieldBytes(RunLength(ds, i)) + SizeFrom(ds, args, RunEnd(ds, i))
    else SizeArg(ds[i], args[i]) + SizeFrom(ds, args, i + 1)
  }

  /** What the tables among arguments i and up add to the computed size but not to the bytes. */
  function SurplusFrom(args: seq<Arg>, i: nat): int
    requires i <= |args|
    decreases |args| - i
  {
    if i == |args| then 0
    else (if args[i].Tab? then SurplusOfEntries(args[i].t) else 0) + SurplusFrom(args, i + 1)
  }

  lemma {:induction false} NoSurplusInRun(args: seq<Arg>, i: nat, e: nat)
    requires i <= e <= |args| && forall k :: i <= k < e ==> args[k].Flag?
    ensures SurplusFrom(args, i) == SurplusFrom(args, e)
    decreases e - i
  {
    if i < e {
      NoSurplusInRun(args, i + 1, e);
    }
  }

  lemma RunHasNoSurplus(ds: seq<Domain>, args: seq<Arg>, i: nat)
    requires Typed(ds, args) && i <= |ds|
    ensures SurplusFrom(args, i) == SurplusFrom(args, RunEnd(ds, i))
  {
    forall k | i <= k < RunEnd(ds, i) ensures args[k].Flag? {
      assert IsBit(ds, k);
    }
    NoSurplusInRun(args, i, RunEnd(ds, i));
  }

  lemma AccountArg(d: Domain, a: Arg)
    requires d != Bit && Fits(d, a)
    ensures |EncodeArg(d, a)| + (if a.Tab? then SurplusOfEntries(a.t) else 0) == SizeArg(d, a)
  {
    if d == Table {
      AccountEntries(a.t);
    }
  }

  lemma {:induction false} AccountArgs(ds: seq<Domain>, args: seq<Arg>, i: nat)
    requires Typed(ds, args) && RunsFit(ds) && i <= |ds|
    ensures |EncodeFrom(ds, args, i)| + SurplusFrom(args, i) == SizeFrom(ds, args, i)
    decreases |ds| - i
  {
    hide EncodeArg, SizeArg, FieldValue, FieldBytes, SurplusOfEntries;
    if i == |ds| {
    } else if IsBit(ds, i) {
      AccountArgs(ds, args, RunEnd(ds, i));
      RunHasNoSurplus(ds, args, i);
    } else {
      AccountArg(ds[i], args[i]);
      AccountArgs(ds, args, i + 1);
    }
  }
}
