/** The wire format byte by byte: what each value, argument, method, content header and frame looks like. */
module WireBytes {
  import opened Bytes
  import opened Bits
  import opened Streams
  import opened FieldTable
  import opened Wireformat
  import opened FloatBits
  import opened TableCodec
  import opened TableTheorems
  import opened MethodCodec
  import opened MethodStreams
  import opened Framing
  import opened Properties

  // ---- integers ----

  function Two(n: uint16): bytes {
    [n / 256, n % 256]
  }

  function Four(n: uint32): bytes {
    [n / 0x100_0000, n / 0x1_0000 % 256, n / 256 % 256, n % 256]
  }

  function Eight(n: uint64): bytes {
    Four(n / TWO32) + Four(n % TWO32)
  }

  lemma OneByte(n: uint8)
    ensures BE(n, 1) == [n]
  {
    assert BE(n / 256, 0) == [];
  }

  lemma TwoBytes(n: uint16)
    ensures BE(n, 2) == Two(n)
  {
    OneByte(n / 256);
  }

  lemma LastTwo(n: nat, k: nat)
    ensures BE(n, k + 2) == BE(n / 0x1_0000, k) + [n / 256 % 256, n % 256]
  {
    var q := n / 256;
    LastOne(n, k + 1);
    LastOne(q, k);
    hide BE;
    assert q / 256 == n / 0x1_0000;
    assert [q % 256] + [n % 256] == [n / 256 % 256, n % 256];
  }

  lemma LastOne(n: nat, k: nat)
    ensures BE(n, k + 1) == BE(n / 256, k) + [n % 256]
  {
  }

  lemma FourBytes(n: uint32)
    ensures BE(n, 4) == Four(n)
  {
    hide BE;
    LastTwo(n, 2);
    TwoBytes(n / 0x1_0000);
    assert n / 0x1_0000 / 256 == n / 0x100_0000;
  }

  /** The two low-order bytes of a number. */
  lemma LowTwoBytes(x: nat, y: uint16)
    ensures var n := 0x1_0000 * x + y;
            n / 0x1_0000 == x && n / 256 % 256 == y / 256 && n % 256 == y % 256
  {
    var n := 0x1_0000 * x + y;
    ModUnique(n, 0x1_0000, x, y);
    ModUnique(n, 256, 256 * x + y / 256, y % 256);
    ModUnique(n / 256, 256, x, y / 256);
  }

  lemma FourOf(c: uint16, d: uint16)
    ensures Four(0x1_0000 * c + d) == Two(c) + Two(d)
  {
    LowTwoBytes(c, d);
    var n := 0x1_0000 * c + d;
    ModUnique(n, 0x100_0000, c / 256, c % 256 * 0x1_0000 + d);
  }

  lemma EightBytes(n: uint64)
    ensures BE(n, 8) == Eight(n)
  {
    hide BE, Four;
    var a, d := n / 0x1_0000, n % 0x1_0000;
    var b, c := a / 0x1_0000, a % 0x1_0000;
    LastTwo(n, 6);
    LastTwo(a, 4);
    LowTwoBytes(a, d);
    LowTwoBytes(b, c);
    FourBytes(b);
    FourOf(c, d);
    ModUnique(n, TWO32, b, 0x1_0000 * c + d);
    Regroup(Four(b), Two(c), Two(d));
  }

  // ---- field values ----

  /** Every value starts with the letter of its type and goes on as its bits, most significant byte first. */
  lemma ValueBytes(v: Value)
    ensures match v
            case Boolean(b) => EncodeValue(v) == [0x74, if b then 1 else 0]
            case Int8(i) => EncodeValue(v) == [0x62, if i < 0 then i + 256 else i]
            case Int16(i) => EncodeValue(v) == [0x55] + Two(if i < 0 then i + 0x1_0000 else i)
            case Int32(i) => EncodeValue(v) == [0x49] + Four(if i < 0 then i + 0x1_0000_0000 else i)
            case Int64(i) => EncodeValue(v) == [0x4C] + Eight(if i < 0 then i + 0x1_0000_0000_0000_0000 else i)
            case Float(f) => EncodeValue(v) == [0x66] + Four(f)
            case Double(d) => EncodeValue(v) == [0x64] + Eight(d)
            case Timestamp(t) => EncodeValue(v) == [0x54] + Eight(t)
            case Decimal(m, x) => EncodeValue(v) == [0x44, m] + Four(if x < 0 then x + 0x1_0000_0000 else x)
            case LongString(s) => EncodeValue(v) == [0x53] + (Four(|s| % 0x1_0000_0000) + s)
            case ByteArray(d) => EncodeValue(v) == [0x78] + d
            case Void => EncodeValue(v) == [0x56]
            case FieldTable(es) => EncodeValue(v) == [0x46] + EncodeTable(es)
            case FieldArray(vs) =>
              EncodeValue(v)
              == [0x41] + (Four((|EncodeElems(vs)| + SurplusOfElems(vs)) % 0x1_0000_0000) + EncodeElems(vs))
  {
    hide EncodeElems, EncodeEntries, SizeElems, SizeEntries;
    Pow256Values();
    match v {
      case Boolean(b) => OneByte(BitsOf(v));
      case Int8(i) => OneByte(BitsOf(v));
      case Int16(i) => TwoBytes(BitsOf(v));
      case Int32(i) => FourBytes(BitsOf(v));
      case Int64(i) => EightBytes(BitsOf(v));
      case Float(f) => FourBytes(f);
      case Double(d) => EightBytes(d);
      case Timestamp(t) => EightBytes(t);
      case Decimal(m, x) => FourBytes(ToUnsigned(x, TWO32));
      case LongString(s) => LengthBytes(|s|);
      case ByteArray(d) =>
      case Void =>
      case FieldTable(es) =>
      case FieldArray(vs) =>
        AccountElems(vs);
        LengthBytes(SizeElems(vs));
    }
  }

  lemma LengthBytes(n: nat)
    ensures BE(n, 4) == Four(n % 0x1_0000_0000)
  {
    Pow256Values();
    BEOfMod(n, 4);
    FourBytes(n % TWO32);
  }

  /** A table is its length, as the size functions compute it, and its entries: key length, key and value. */
  lemma TableBytes(es: seq<Entry>)
    ensures EncodeTable(es)
         == Four((|EncodeEntries(es)| + SurplusOfEntries(es)) % 0x1_0000_0000) + EncodeEntries(es)
    ensures es != [] ==>
              EncodeEntries(es) == [|es[0].key|] + es[0].key + EncodeValue(es[0].value) + EncodeEntries(es[1..])
    ensures EncodeEntries([]) == []
  {
    AccountEntries(es);
    LengthBytes(SizeEntries(es));
  }

  /** Reading by the letter: each of the one-integer types from its bytes, and the rest left alone. */
  lemma ReadsLetter1(n: uint8, r: bytes)
    ensures DecodeValue([0x74] + [n] + r) == Ok(Boolean(n != 0), r)
    ensures DecodeValue([0x62] + [n] + r) == Ok(Int8(if n < 0x80 then n else n - 0x100), r)
  {
    hide DecodeValue;
    Pow256Values();
    OneByte(n);
    ReadsFixed(0x74, n, r);
    ReadsFixed(0x62, n, r);
  }

  lemma ReadsLetter2(n: uint16, r: bytes)
    ensures DecodeValue([0x55] + Two(n) + r) == Ok(Int16(if n < 0x8000 then n else n - 0x1_0000), r)
  {
    hide DecodeValue;
    Pow256Values();
    TwoBytes(n);
    ReadsFixed(0x55, n, r);
  }

  lemma ReadsLetter4(n: uint32, r: bytes)
    ensures DecodeValue([0x49] + Four(n) + r) == Ok(Int32(if n < 0x8000_0000 then n else n - 0x1_0000_0000), r)
    ensures DecodeValue([0x66] + Four(n) + r) == Ok(Float(n), r)
  {
    hide DecodeValue;
    Pow256Values();
    FourBytes(n);
    ReadsFixed(0x49, n, r);
    ReadsFixed(0x66, n, r);
  }

  lemma ReadsLetter8(n: uint64, r: bytes)
    ensures DecodeValue([0x4C] + Eight(n) + r)
         == Ok(Int64(if n < 0x8000_0000_0000_0000 then n else n - 0x1_0000_0000_0000_0000), r)
    ensures DecodeValue([0x54] + Eight(n) + r) == Ok(Value.Timestamp(n), r)
    ensures DecodeValue([0x64] + Eight(n) + r) == Ok(Double(Widen(n % 0x1_0000_0000)), r)
  {
    hide DecodeValue, Widen;
    Pow256Values();
    EightBytes(n);
    ReadsFixed(0x4C, n, r);
    ReadsFixed(0x54, n, r);
    ReadsFixed(0x64, n, r);
  }

  lemma ReadsFixed(tag: byte, n: nat, r: bytes)
    requires WidthOf(tag) != 0 && n < Pow256(WidthOf(tag))
    ensures DecodeValue([tag] + BE(n, WidthOf(tag)) + r) == Ok(FromBits(tag, n), r)
  {
    DecodeFixedTag(tag, n, r);
    DecodeTag(tag, BE(n, WidthOf(tag)) + r);
    Regroup([tag], BE(n, WidthOf(tag)), r);
  }

  /** Strings and byte arrays both come with a length. */
  lemma ReadsString(s: bytes, r: bytes)
    requires |s| < 0x1_0000_0000
    ensures DecodeValue([0x53] + (Four(|s|) + s + r)) == Ok(LongString(s), r)
    ensures DecodeValue([0x78] + (Four(|s|) + s + r)) == Ok(ByteArray(s), r)
  {
    FourBytes(|s|);
    LongStringIff(Four(|s|) + s + r, s, r);
    DecodeTag(0x53, Four(|s|) + s + r);
    DecodeTag(0x78, Four(|s|) + s + r);
    hide DecodeLongString, DecodeValue;
  }

  /** Void is a letter alone, a table is read as one, an array never is, and no other letter is a type. */
  lemma ReadsOther(tag: byte, r: bytes)
    ensures DecodeValue([0x56] + r) == Ok(Void, r)
    ensures DecodeValue([0x46] + r) == match DecodeTable(r) case Err => Err case Ok(es, q) => Ok(FieldTable(es), q)
    ensures DecodeValue([0x41] + r) == Err
    ensures tag !in {0x74, 0x62, 0x55, 0x49, 0x4C, 0x66, 0x64, 0x44, 0x53, 0x41, 0x54, 0x46, 0x56, 0x78}
        ==> DecodeValue([tag] + r) == Err
  {
    hide DecodeValue, DecodeLongString, DecodeTable, DecodeElems, ReadUint, DecodeDecimal;
    DecodeTag(0x56, r);
    DecodeTag(0x46, r);
    DecodeTag(0x41, r);
    DecodeTag(tag, r);
    ArrayNeverDecodes(r);
  }

  lemma ReadsDecimal(m: byte, n: uint32, r: bytes)
    ensures DecodeValue([0x44, m] + Four(n) + r)
         == Ok(Decimal(m, if n < 0x8000_0000 then n else n - 0x1_0000_0000), r)
  {
    Pow256Values();
    FourBytes(n);
    OneByte(m);
    var tail := Four(n) + r;
    ReadUintIff(tail, 4, n, r);
    ReadUintIff([m] + tail, 1, m, tail);
    DecodeTag(0x44, [m] + tail);
    assert [0x44, m] + Four(n) + r == [0x44] + ([m] + tail);
  }

  /** The keys the library accepts. */
  lemma KeyLimit(key: bytes, v: Value)
    ensures MakeEntry(key, v) == if |key| <= 128 then Some(Entry(key, v)) else None
  {
  }

  // ---- arguments and methods ----

  /** The field is the narrowest integer that holds the run. */
  lemma FieldBytesLeast(length: nat, k: nat)
    requires length <= 64 && k in {1, 2, 4, 8} && length <= 8 * k
    ensures FieldBytes(length) <= k
  {
  }

  /** A run of bits takes one, two or four bytes, and is counted with as many. */
  lemma RunWidth(ds: seq<Domain>, args: seq<Arg>, i: nat)
    requires Typed(ds, args) && RunsFit(ds) && IsBit(ds, i)
    ensures var e := RunEnd(ds, i);
            var w := if e - i <= 8 then 1 else if e - i <= 16 then 2 else 4;
            && |EncodeFrom(ds, args, i)| == w + |EncodeFrom(ds, args, e)|
            && SizeFrom(ds, args, i) == w + SizeFrom(ds, args, e)
  {
    var n := RunLength(ds, i);
    assert n <= 31;
    FieldBytesLeast(n, 4);
    if n <= 16 {
      FieldBytesLeast(n, 2);
    }
    if n <= 8 {
      FieldBytesLeast(n, 1);
    }
    hide FieldBytes, FieldValue;
  }

  function Flags(args: seq<Arg>): seq<bool> {
    seq(|args|, k requires 0 <= k < |args| => args[k].Flag? && args[k].b)
  }

  lemma {:induction false} SmallBit(v: nat, n: nat, k: nat)
    requires v < Pow2(n) && n <= k
    ensures !Bits.Bit(v, k)
  {
    if n == 0 {
      ZeroBit(k);
    } else {
      SmallBit(v / 2, n - 1, k - 1);
    }
  }

  lemma {:induction false} BitsDetermine(a: nat, b: nat, w: nat)
    requires a < Pow2(w) && b < Pow2(w) && forall k: nat :: k < w ==> Bits.Bit(a, k) == Bits.Bit(b, k)
    ensures a == b
  {
    if w > 0 {
      assert Bits.Bit(a, 0) == Bits.Bit(b, 0);
      forall k: nat | k < w - 1 ensures Bits.Bit(a / 2, k) == Bits.Bit(b / 2, k) {
        assert Bits.Bit(a, k + 1) == Bits.Bit(b, k + 1);
      }
      BitsDetermine(a / 2, b / 2, w - 1);
    }
  }

  /** Writes at 0, 1, 2 and so on give the number whose binary digits they are. */
  lemma PackNumber(args: seq<Arg>, s: nat, e: nat, length: nat)
    requires s <= e <= |args| && e - s == length <= MAX_RUN
    ensures Pack(args, s, e, length) == FlagsToNat(Flags(args[s..e]))
  {
    hide SetBit, Bits.Bit, FoldBits, GetBit;
    var flags, w := Flags(args[s..e]), BitfieldSize(length);
    var v, n := Pack(args, s, e, length), FlagsToNat(flags);
    Pow2Mono(length, w);
    forall k: nat | k < w ensures Bits.Bit(v, k) == Bits.Bit(n, k) {
      GetBitIsBit(v, k);
      if k < length {
        PackRecovers(args, s, e, length, k);
        FlagBit(flags, k);
        assert flags[k] == FlagOf(args[s + k]);
      } else {
        SmallBit(n, length, k);
        FoldRecovers(w, FlagWrites(args, s, e), k);
        NotWritten(FlagWrites(args, s, e), k);
      }
    }
    BitsDetermine(v, n, w);
  }

  lemma {:induction false} NotWritten(ws: seq<BitWrite>, q: nat)
    requires forall i :: 0 <= i < |ws| ==> ws[i].position != q
    ensures !LastWrite(ws, q)
  {
    if ws != [] {
      NotWritten(ws[..|ws| - 1], q);
    }
  }

  /** A run is sent as the number whose binary digits are its flags, the first one lowest; one bit as 0 or 1. */
  lemma RunBytes(ds: seq<Domain>, args: seq<Arg>, i: nat)
    requires Typed(ds, args) && RunsFit(ds) && IsBit(ds, i)
    ensures var e := RunEnd(ds, i);
            var n := FlagsToNat(Flags(args[i..e]));
            && (e - i <= 8 ==> n < 0x100 && EncodeFrom(ds, args, i) == [n] + EncodeFrom(ds, args, e))
            && (8 < e - i <= 16 ==> n < 0x1_0000 && EncodeFrom(ds, args, i) == Two(n) + EncodeFrom(ds, args, e))
            && (16 < e - i ==> n < 0x1_0000_0000 && EncodeFrom(ds, args, i) == Four(n) + EncodeFrom(ds, args, e))
            && (e - i == 1 ==> n == if args[i].b then 1 else 0)
  {
    var e := RunEnd(ds, i);
    var n := FlagsToNat(Flags(args[i..e]));
    PackNumber(args, i, e, e - i);
    PackFitsBytes(n, e - i);
    Pow256Values();
    hide Pack, FlagsToNat;
    if e - i <= 8 {
      OneByte(n);
    } else if e - i <= 16 {
      TwoBytes(n);
    } else {
      FourBytes(n);
    }
    if e - i == 1 {
      OneFlag(args[i]);
      assert args[i..e] == [args[i]];
    }
  }

  lemma OneFlag(a: Arg)
    requires a.Flag?
    ensures FlagsToNat(Flags([a])) == if a.b then 1 else 0
  {
    assert Flags([a]) == [a.b] && [a.b][1..] == [];
  }

  /** Each argument on the wire. */
  lemma ArgBytes(d: Domain, a: Arg)
    requires d != Bit && Fits(d, a)
    ensures match d
            case Octet => a.n < 0x100 && EncodeArg(d, a) == [a.n]
            case Short => a.n < 0x1_0000 && EncodeArg(d, a) == Two(a.n)
            case Long => a.n < 0x1_0000_0000 && EncodeArg(d, a) == Four(a.n)
            case LongLong => a.n < 0x1_0000_0000_0000_0000 && EncodeArg(d, a) == Eight(a.n)
            case Timestamp => a.n < 0x1_0000_0000_0000_0000 && EncodeArg(d, a) == Eight(a.n)
            case ShortStr => EncodeArg(d, a) == [|a.s|] + a.s
            case LongStr => EncodeArg(d, a) == Four(|a.s|) + a.s
            case Table => EncodeArg(d, a) == EncodeTable(a.t)
            case Bit => true
  {
    Pow256Values();
    match d {
      case Octet => OneByte(a.n);
      case Short => TwoBytes(a.n);
      case Long => FourBytes(a.n);
      case LongLong => EightBytes(a.n);
      case Timestamp => EightBytes(a.n);
      case ShortStr =>
      case LongStr => FourBytes(|a.s|);
      case Table =>
    }
  }

  /** The setters of short strings refuse NULs and more than 255 bytes; no other setter refuses anything. */
  lemma SetterLimits(d: Domain, a: Arg)
    ensures SetterAccepts(d, a) <==> (d == ShortStr && a.Str? ==> |a.s| <= 255 && 0 !in a.s)
  {
  }

  /** A method is its class id, its method id and its arguments. */
  lemma MethodBytes(spec: Schema, m: Method)
    requires Belongs(spec, m)
    ensures EncodeMethod(spec, m) == Two(m.classId) + Two(m.methodId) + EncodeFrom(Domains(spec, m), m.args, 0)
  {
    TwoBytes(m.classId);
    TwoBytes(m.methodId);
  }

  // ---- content headers and frames ----

  /** A content header: class id, weight, body size, flags with the lowest position lowest, and the fields. */
  lemma ContentHeaderBytes(classId: uint16, fs: seq<PropField>, p: Props)
    requires Holds(fs, p)
    ensures FlagsToNat(Refreshed(fs, p)) < 0x1_0000
    ensures EncodeContent(classId, fs, p)
         == Two(classId) + Two(p.weight) + Eight(p.bodySize) + Two(FlagsToNat(Refreshed(fs, p)))
            + EncodeFields(fs, p, 0)
  {
    FlagsRoundTrip(Refreshed(fs, p));
    TwoBytes(classId);
    TwoBytes(p.weight);
    EightBytes(p.bodySize);
    TwoBytes(FlagsToNat(Refreshed(fs, p)));
    hide BE, Two, Eight, FlagsToNat, EncodeFields;
  }

  /** Properties of a single table: empty, it is flagged and sent; with entries it is neither. */
  lemma OneTableBytes(classId: uint16, fs: seq<PropField>, p: Props)
    requires Holds(fs, p) && |fs| == 1 && fs[0].domain == Table
    ensures EncodeContent(classId, fs, p)
         == Two(classId) + Two(p.weight) + Eight(p.bodySize)
            + (if p.values[0].t == [] then [0, 1, 0, 0, 0, 0] else [0, 0])
  {
    ContentHeaderBytes(classId, fs, p);
    TablePropertyIff(fs, p, 0);
    var flags := Refreshed(fs, p);
    assert flags == [flags[0]] && [flags[0]][1..] == [];
    OneTableFields(fs, p);
    hide EncodeContent, Eight, EncodeFields;
  }

  lemma OneTableFields(fs: seq<PropField>, p: Props)
    requires Holds(fs, p) && |fs| == 1 && fs[0].domain == Table
    ensures EncodeFields(fs, p, 0) == if p.values[0].t == [] then [0, 0, 0, 0] else []
  {
    TablePropertyIff(fs, p, 0);
    RefreshedIsSet(fs, p, 0);
    assert EncodeFields(fs, p, 1) == [];
    EmptyTable();
    hide IsSet;
  }

  lemma EmptyTable()
    ensures EncodeTable([]) == [0, 0, 0, 0] && EncodeTable([]) + [] == EncodeTable([])
  {
    TableBytes([]);
  }

  /** A frame: type, channel, payload size, payload and end octet. */
  lemma FrameBytes(f: Frame)
    ensures var code := match f.ftype
                        case MethodFrame => 1
                        case HeaderFrame => 2
                        case BodyFrame => 3
                        case HeartbeatFrame => 8;
            PrintFrame(f)
            == [code] + Two(f.channel) + Four(|f.payload| % 0x1_0000_0000) + f.payload + [206]
  {
    TwoBytes(f.channel);
    LengthBytes(|f.payload|);
  }
}
