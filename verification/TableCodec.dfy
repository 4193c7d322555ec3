/** The field-table encoding as written: bytes produced, sizes computed, and how bytes are read back. */
module TableCodec {
  import opened Bytes
  import opened Streams
  import opened FieldTable
  import opened Wireformat
  import FloatBits

  // ---- type tags ----

  function TagOf(v: Value): byte {
    match v
    case Boolean(_) => 0x74      // t
    case Int8(_) => 0x62         // b
    case Int16(_) => 0x55        // U
    case Int32(_) => 0x49        // I
    case Int64(_) => 0x4C        // L
    case Float(_) => 0x66        // f
    case Double(_) => 0x64       // d
    case Decimal(_, _) => 0x44   // D
    case LongString(_) => 0x53   // S
    case FieldArray(_) => 0x41   // A
    case Timestamp(_) => 0x54    // T
    case FieldTable(_) => 0x46   // F
    case Void => 0x56            // V
    case ByteArray(_) => 0x78    // x
  }

  /** Bytes after the tag for the types held in one integer; 0 for every other tag. */
  function WidthOf(tag: byte): nat {
    if tag == 0x74 || tag == 0x62 then 1
    else if tag == 0x55 then 2
    else if tag == 0x49 || tag == 0x66 then 4
    else if tag == 0x4C || tag == 0x64 || tag == 0x54 then 8
    else 0
  }

  predicate IsFixed(v: Value) { WidthOf(TagOf(v)) != 0 }

  function BitsOf(v: Value): (n: nat)
    requires IsFixed(v)
    ensures n < Pow256(WidthOf(TagOf(v)))
  {
    Pow256Values();
    match v
    case Boolean(b) => if b then 1 else 0
    case Int8(i) => ToUnsigned(i, 256)
    case Int16(i) => ToUnsigned(i, TWO16)
    case Int32(i) => ToUnsigned(i, TWO32)
    case Int64(i) => ToUnsigned(i, TWO64)
    case Float(f) => f
    case Double(d) => d
    case Timestamp(t) => t
  }

  function FromBits(tag: byte, n: nat): Value
    requires WidthOf(tag) != 0 && n < Pow256(WidthOf(tag))
  {
    Pow256Values();
    if tag == 0x74 then Boolean(n != 0)
    else if tag == 0x62 then Int8(ToSigned(n, 256))
    else if tag == 0x55 then Int16(ToSigned(n, TWO16))
    else if tag == 0x49 then Int32(ToSigned(n, TWO32))
    else if tag == 0x4C then Int64(ToSigned(n, TWO64))
    else if tag == 0x66 then Float(n)
    else if tag == 0x64 then Double(FloatBits.ReadDouble(n))
    else Timestamp(n)
  }

  // ---- sizes (table_entry.cpp, table.cpp), before the reduction to 32 bits ----

  /** sizeof(std::pair<uint8_t, int32_t>) */
  const SIZEOF_DECIMAL: nat := 8

  function SizeData(v: Value): nat
    decreases v, 0
  {
    match v
    case Decimal(_, _) => SIZEOF_DECIMAL
    case LongString(s) => 4 + |s|
    case FieldArray(vs) => SizeElems(vs)
    case FieldTable(es) => 4 + SizeEntries(es)
    case Void => 0
    case ByteArray(d) => 4 + |d|
    case _ => WidthOf(TagOf(v))
  }

  function SizeElems(vs: seq<Value>): nat
    decreases vs, 1
  {
    if vs == [] then 0 else 1 + SizeData(vs[0]) + SizeElems(vs[1..])
  }

  function SizeEntry(e: Entry): nat
    decreases e, 1
  {
    1 + |e.key| + (1 + SizeData(e.value))
  }

  function SizeEntries(es: seq<Entry>): nat
    decreases es, 1
  {
    if es == [] then 0 else SizeEntry(es[0]) + SizeEntries(es[1..])
  }

  // ---- bytes written (wireformat.cpp) ----

  function EncodeValue(v: Value): bytes
    decreases v, 0
  {
    match v
    case Decimal(m, x) => [TagOf(v), m] + BE(ToUnsigned(x, TWO32), 4)
    case LongString(s) => [TagOf(v)] + EncodeLongString(s)
    case FieldArray(vs) => [TagOf(v)] + (BE(SizeElems(vs), 4) + EncodeElems(vs))
    case FieldTable(es) => [TagOf(v)] + (BE(SizeEntries(es), 4) + EncodeEntries(es))
    case Void => [TagOf(v)]
    case ByteArray(d) => [TagOf(v)] + d
    case _ => [TagOf(v)] + BE(BitsOf(v), WidthOf(TagOf(v)))
  }

  function EncodeElems(vs: seq<Value>): bytes
    decreases vs, 1
  {
    if vs == [] then [] else EncodeValue(vs[0]) + EncodeElems(vs[1..])
  }

  function EncodeEntry(e: Entry): bytes
    decreases e, 1
  {
    EncodeShortString(e.key) + EncodeValue(e.value)
  }

  function EncodeEntries(es: seq<Entry>): bytes
    decreases es, 1
  {
    if es == [] then [] else EncodeEntry(es[0]) + EncodeEntries(es[1..])
  }

  /** The length prefix: wireformat_size() less its own four bytes, of which four bytes are kept. */
  function TablePrefix(es: seq<Entry>): bytes {
    BE(SizeEntries(es), 4)
  }

  function EncodeTable(es: seq<Entry>): bytes {
    TablePrefix(es) + EncodeEntries(es)
  }

  /** The writer throws exactly when some long string, at any depth, is 2^32 bytes or longer. */
  predicate Writable(v: Value)
    decreases v, 0
  {
    match v
    case LongString(s) => |s| < TWO32
    case FieldArray(vs) => WritableElems(vs)
    case FieldTable(es) => WritableEntries(es)
    case _ => true
  }

  predicate WritableElems(vs: seq<Value>)
    decreases vs, 1
  {
    vs == [] || (Writable(vs[0]) && WritableElems(vs[1..]))
  }

  predicate WritableEntries(es: seq<Entry>)
    decreases es, 1
  {
    es == [] || (Writable(es[0].value) && WritableEntries(es[1..]))
  }

  // ---- bytes read (wireformat.cpp) ----

  function DecodeValue(bs: bytes): (r: Parsed<Value>)
    ensures r.Ok? ==> |r.rest| < |bs|
    decreases |bs|, 0
  {
    if bs == [] then Err else DecodeTagged(bs[0], bs[1..])
  }

  function DecodeTagged(tag: byte, bs: bytes): (r: Parsed<Value>)
    ensures r.Ok? ==> |r.rest| <= |bs|
    decreases |bs|, 3
  {
    if WidthOf(tag) != 0 then
      match ReadUint(bs, WidthOf(tag))
      case Err => Err
      case Ok(n, r) => Ok(FromBits(tag, n), r)
    else if tag == 0x44 then DecodeDecimal(bs)
    else if tag == 0x53 then
      match DecodeLongString(bs)
      case Err => Err
      case Ok(s, r) => Ok(LongString(s), r)
    else if tag == 0x41 then
      match DecodeLongString(bs)
      case Err => Err
      case Ok(body, r) => (
        match DecodeElems(body)
        case None => Err
        case Some(vs) => Ok(FieldArray(vs), r))
    else if tag == 0x46 then
      match DecodeTable(bs)
      case Err => Err
      case Ok(es, r) => Ok(FieldTable(es), r)
    else if tag == 0x56 then Ok(Void, bs)
    else if tag == 0x78 then
      match DecodeLongString(bs)
      case Err => Err
      case Ok(d, r) => Ok(ByteArray(d), r)
    else Err
  }

  function DecodeDecimal(bs: bytes): (r: Parsed<Value>)
    ensures r.Ok? ==> r.value.Decimal? && |r.rest| + 5 == |bs|
  {
    match ReadUint(bs, 1)
    case Err => Err
    case Ok(m, rest) =>
      match ReadUint(rest, 4)
      case Err => Err
      case Ok(n, r) =>
        Pow256Values();
        Ok(Decimal(m, ToSigned(n, TWO32)), r)
  }

  /** The array loop tests eof(), which an exact read does not set: it always asks for one more element. */
  function DecodeElems(bs: bytes): Option<seq<Value>>
    decreases |bs|, 1
  {
    match DecodeValue(bs)
    case Err => None
    case Ok(v, rest) =>
      match DecodeElems(rest)
      case None => None
      case Some(vs) => Some([v] + vs)
  }

  function DecodeEntry(bs: bytes): (r: Parsed<Entry>)
    ensures r.Ok? ==> |r.rest| + 2 <= |bs|
    decreases |bs|, 1
  {
    match DecodeShortString(bs)
    case Err => Err
    case Ok(k, r) =>
      match DecodeValue(r)
      case Err => Err
      case Ok(v, rest) =>
        match MakeEntry(k, v)
        case None => Err
        case Some(e) => Ok(e, rest)
  }

  /** The entries in wire order; the loop peeks for the end of the inner stream. */
  function DecodeEntries(bs: bytes): Option<seq<Entry>>
    decreases |bs|, 2
  {
    if bs == [] then Some([])
    else
      match DecodeEntry(bs)
      case Err => None
      case Ok(e, rest) =>
        match DecodeEntries(rest)
        case None => None
        case Some(es) => Some([e] + es)
  }

  function DecodeTable(bs: bytes): (r: Parsed<seq<Entry>>)
    ensures r.Ok? ==> |r.rest| < |bs|
    decreases |bs|, 0
  {
    match DecodeLongString(bs)
    case Err => Err
    case Ok(body, rest) =>
      match DecodeEntries(body)
      case None => Err
      case Some(es) => Ok(InsertAll([], es), rest)
  }
}
