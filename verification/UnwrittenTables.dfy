/**
 * Table readers on bytes of which the last have never been written and can hold anything: a table that comes back
 * whatever they hold weighs less than what is written of it.
 */
module UnwrittenTables {
  import opened Bytes
  import opened Streams
  import opened FieldTable
  import opened Wireformat
  import opened TableCodec
  import opened TableTheorems

  /** k zeros but for byte p, if there is one. */
  function Tail(k: nat, p: nat, b: byte): (t: bytes)
    ensures |t| == k && forall i :: 0 <= i < k ==> t[i] == if i == p then b else 0
  {
    seq(k, i => if i == p then b else 0)
  }

  // ---- what a reader has not asked for does not change what it returns ----

  lemma UintLocal(z: bytes, t: bytes, k: nat)
    requires ReadUint(z, k).Ok?
    ensures ReadUint(z + t, k) == Ok(ReadUint(z, k).value, ReadUint(z, k).rest + t)
  {
    assert (z + t)[..k] == z[..k] && (z + t)[k..] == z[k..] + t;
  }

  lemma LongStringLocal(z: bytes, t: bytes)
    requires DecodeLongString(z).Ok?
    ensures DecodeLongString(z + t) == Ok(DecodeLongString(z).value, DecodeLongString(z).rest + t)
  {
    var s, r := DecodeLongString(z).value, DecodeLongString(z).rest;
    LongStringIff(z, s, r);
    Regroup(EncodeLongString(s), r, t);
    LongStringIff(z + t, s, r + t);
  }

  lemma ShortStringLocal(z: bytes, t: bytes)
    requires DecodeShortString(z).Ok?
    ensures DecodeShortString(z + t) == Ok(DecodeShortString(z).value, DecodeShortString(z).rest + t)
  {
    var s, r := DecodeShortString(z).value, DecodeShortString(z).rest;
    ShortStringIff(z, s, r);
    Regroup(EncodeShortString(s), r, t);
    ShortStringIff(z + t, s, r + t);
  }

  lemma TaggedLocal(tag: byte, z: bytes, t: bytes)
    requires DecodeTagged(tag, z).Ok?
    ensures DecodeTagged(tag, z + t) == Ok(DecodeTagged(tag, z).value, DecodeTagged(tag, z).rest + t)
  {
    if WidthOf(tag) != 0 {
      UintLocal(z, t, WidthOf(tag));
    } else if tag == 0x44 {
      UintLocal(z, t, 1);
      UintLocal(ReadUint(z, 1).rest, t, 4);
    } else if tag == 0x41 {
      ArrayNeverDecodes(z);
    } else if tag != 0x56 {
      LongStringLocal(z, t);
    }
  }

  // ---- long strings by position ----

  /** The length a long string declares. */
  function Declared(bs: bytes): (n: nat)
    requires |bs| >= 4
  {
    FromBE(bs[..4])
  }

  lemma LongStringAt(bs: bytes)
    ensures DecodeLongString(bs)
         == if |bs| < 4 || |bs| - 4 < Declared(bs) then Err
            else Ok(bs[4..4 + Declared(bs)], bs[4 + Declared(bs)..])
  {
    if |bs| >= 4 && |bs| - 4 >= Declared(bs) {
      var n := Declared(bs);
      assert bs[4..][..n] == bs[4..4 + n] && bs[4..][n..] == bs[4 + n..];
    }
  }

  lemma DeclaredLocal(z: bytes, t: bytes)
    requires |z| >= 4
    ensures Declared(z + t) == Declared(z)
  {
    assert (z + t)[..4] == z[..4];
  }

  lemma LastByte(bs: bytes)
    requires bs != []
    ensures FromBE(bs) == 256 * FromBE(bs[..|bs| - 1]) + bs[|bs| - 1]
  {
  }

  /** With the last byte of the length unwritten, the length can be odd or even. */
  lemma DeclaredByLast(z: bytes, t: bytes, u: bytes)
    requires |z| < 4 <= |z| + |t| && |t| == |u|
    requires t[..3 - |z|] == u[..3 - |z|] && t[3 - |z|] == 0 && u[3 - |z|] == 1
    ensures Declared(z + u) == Declared(z + t) + 1
  {
    assert (z + t)[..4][..3] == z + t[..3 - |z|] == (z + u)[..4][..3];
    LastByte((z + t)[..4]);
    LastByte((z + u)[..4]);
  }

  // ---- entries whose end is unwritten ----

  /** A read after which the entry loop fails: an exception, or a rest that starts with the length of no key. */
  ghost predicate Breaks(p: Parsed<Value>) { p.Err? || (p.rest != [] && p.rest[0] > MAX_KEY) }

  /** Reading the value takes all of the k unwritten bytes. */
  ghost predicate Exhausts(tag: byte, z: bytes, k: nat) {
    forall t: bytes :: |t| == k && DecodeTagged(tag, z + t).Ok? ==> DecodeTagged(tag, z + t).rest == []
  }

  /** A table whose body ends just where the unwritten bytes end. */
  predicate EndsAt(z: bytes, k: nat) { |z| >= 4 && Declared(z) == |z| - 4 + k }

  /**
   * t breaks the loop; or the value takes all unwritten bytes, and either t and u give different values or it is
   * a table.
   */
  ghost predicate Exposes(tag: byte, z: bytes, k: nat, t: bytes, u: bytes) {
    && |t| == |u| == k
    && (Breaks(DecodeTagged(tag, z + t))
        || (Exhausts(tag, z, k)
            && ((tag == 0x46 && EndsAt(z, k))
                || Breaks(DecodeTagged(tag, z + u))
                || DecodeTagged(tag, z + t).value != DecodeTagged(tag, z + u).value)))
  }

  lemma LongKeyFails(bs: bytes)
    requires bs != [] && bs[0] > MAX_KEY
    ensures DecodeEntries(bs) == None
  {
  }

  lemma ZerosFail(bs: bytes)
    requires forall i :: 0 <= i < |bs| ==> bs[i] == 0
    ensures DecodeValue(bs) == Err
    ensures bs != [] ==> DecodeEntries(bs) == None
  {
    if bs != [] {
      assert DecodeShortString(bs) == Ok([], bs[1..]);
      assert DecodeValue(bs[1..]) == Err;
    }
  }

  /** The next unwritten byte after a value that takes only j of them. */
  lemma RestStarts(z: bytes, k: nat, j: nat, w: nat)
    requires j < k && w == |z| + j
    ensures (z + Tail(k, j, 255))[w..] != [] && (z + Tail(k, j, 255))[w..][0] == 255
  {
  }

  lemma FixedDiffers(tag: byte, b: nat)
    requires WidthOf(tag) != 0 && 256 * b + 1 < Pow256(WidthOf(tag))
    ensures FromBits(tag, 256 * b) != FromBits(tag, 256 * b + 1)
  {
    Pow256Values();
    if tag == 0x64 {
      FloatBits.LastByteMatters(b);
    }
  }

  lemma LastByteDiffers(z: bytes, k: nat)
    requires k > 0
    ensures var n := 256 * FromBE(z + Tail(k - 1, k, 0));
            FromBE(z + Tail(k, k, 0)) == n && FromBE(z + Tail(k, k - 1, 1)) == n + 1
  {
    var x, y := z + Tail(k, k, 0), z + Tail(k, k - 1, 1);
    var init := z + Tail(k - 1, k, 0);
    assert x[..|x| - 1] == init == y[..|y| - 1];
  }

  lemma FixedExposes(tag: byte, z: bytes, k: nat) returns (t: bytes, u: bytes)
    requires k > 0 && WidthOf(tag) > |z|
    ensures Exposes(tag, z, k, t, u)
  {
    var w := WidthOf(tag);
    var j := w - |z|;
    t, u := Tail(k, if j < k then j else k, 255), Tail(k, k - 1, 1);
    if j < k {
      RestStarts(z, k, j, w);
    } else if j == k {
      LastByteDiffers(z, k);
      assert t == Tail(k, k, 0);
      var n := FromBE(z + Tail(k - 1, k, 0));
      assert (z + t)[..w] == z + t && (z + u)[..w] == z + u;
      BEOfFromBE(z + u);
      FixedDiffers(tag, n);
    }
  }

  lemma DecimalAt(bs: bytes)
    ensures DecodeDecimal(bs)
         == if |bs| < 5 then Err
            else (BEOfFromBE(bs[1..5]); Pow256Values();
                  Ok(Decimal(bs[0], ToSigned(FromBE(bs[1..5]), TWO32)), bs[5..]))
  {
    if |bs| >= 5 {
      assert bs[..1] == [bs[0]] && [bs[0]][..0] == [];
      assert bs[1..][..4] == bs[1..5] && bs[1..][4..] == bs[5..];
    }
  }

  lemma DecimalDiffers(x: bytes, y: bytes)
    requires |x| == |y| == 5 && x[..4] == y[..4] && x[4] == 0 && y[4] == 1
    ensures DecodeDecimal(x).value != DecodeDecimal(y).value
  {
    DecimalAt(x);
    DecimalAt(y);
    assert x[1..5][..3] == x[..4][1..] && y[1..5][..3] == y[..4][1..];
    LastByte(x[1..5]);
    LastByte(y[1..5]);
  }

  lemma DecimalExposes(z: bytes, k: nat) returns (t: bytes, u: bytes)
    requires k > 0 && |z| < 5
    ensures Exposes(0x44, z, k, t, u)
  {
    hide DecodeDecimal;
    var j := 5 - |z|;
    t, u := Tail(k, if j < k then j else k, 255), Tail(k, k - 1, 1);
    DecimalAt(z + t);
    if j < k {
      RestStarts(z, k, j, 5);
    } else if j == k {
      DecimalDiffers(z + t, z + u);
      forall x: bytes | |x| == k && DecodeDecimal(z + x).Ok? ensures DecodeDecimal(z + x).rest == [] {
        DecimalAt(z + x);
      }
    }
  }

  /** The same for the string a value is read from. */
  ghost predicate StringExposes(z: bytes, k: nat, t: bytes, u: bytes) {
    && |t| == |u| == k
    && match DecodeLongString(z + t)
       case Err => true
       case Ok(s, rest) =>
         || (rest != [] && rest[0] > MAX_KEY)
         || (EndsAt(z, k)
             && (forall x: bytes :: |x| == k && DecodeLongString(z + x).Ok? ==> DecodeLongString(z + x).rest == [])
             && (DecodeLongString(z + u).Ok? ==> DecodeLongString(z + u).value != s))
  }

  lemma StringInValue(tag: byte, z: bytes, k: nat, t: bytes, u: bytes)
    requires (tag == 0x53 || tag == 0x78 || tag == 0x46) && StringExposes(z, k, t, u)
    ensures Exposes(tag, z, k, t, u)
  {
    hide DecodeLongString, DecodeTagged;
    if EndsAt(z, k) && DecodeLongString(z + t).Ok? && DecodeLongString(z + t).rest == [] {
      forall x: bytes | |x| == k && DecodeTagged(tag, z + x).Ok? ensures DecodeTagged(tag, z + x).rest == [] {
        StringOf(tag, z + x);
      }
    }
    StringOf(tag, z + t);
    StringOf(tag, z + u);
  }

  lemma StringOf(tag: byte, bs: bytes)
    requires tag == 0x53 || tag == 0x78 || tag == 0x46
    ensures DecodeTagged(tag, bs).Ok?
        ==> DecodeLongString(bs).Ok? && DecodeTagged(tag, bs).rest == DecodeLongString(bs).rest
    ensures tag == 0x53
        ==> DecodeTagged(tag, bs) == match DecodeLongString(bs) case Err => Err case Ok(s, r) => Ok(LongString(s), r)
    ensures tag == 0x78
        ==> DecodeTagged(tag, bs) == match DecodeLongString(bs) case Err => Err case Ok(s, r) => Ok(ByteArray(s), r)
  {
  }

  lemma CutEnds(z: bytes, k: nat)
    requires k > 0 && EndsAt(z, k)
    ensures StringExposes(z, k, Tail(k, k, 0), Tail(k, k - 1, 1))
  {
    var t, u, n := Tail(k, k, 0), Tail(k, k - 1, 1), Declared(z);
    forall x: bytes | |x| == k ensures DecodeLongString(z + x) == Ok((z + x)[4..], []) {
      LongStringAt(z + x);
      DeclaredLocal(z, x);
      assert (z + x)[4..4 + n] == (z + x)[4..] && (z + x)[4 + n..] == [];
    }
    assert (z + t)[4..][n - 1] == 0 && (z + u)[4..][n - 1] == 1;
  }

  /** A body cut off by the end of the written bytes. */
  lemma CutExposes(z: bytes, k: nat) returns (t: bytes, u: bytes)
    requires k > 0 && |z| >= 4 && |z| - 4 < Declared(z)
    ensures StringExposes(z, k, t, u)
  {
    var j := Declared(z) + 4 - |z|;
    t, u := Tail(k, if j < k then j else k, 255), Tail(k, k - 1, 1);
    if j == k {
      t := Tail(k, k, 0);
      CutEnds(z, k);
    } else {
      LongStringAt(z + t);
      DeclaredLocal(z, t);
      if j < k {
        RestStarts(z, k, j, 4 + Declared(z));
      }
    }
  }

  /** A length cut off: zeros up to its last byte b, then bytes that start no entry. */
  function CutLength(k: nat, j: nat, b: byte): (t: bytes)
    requires 0 < j <= k
    ensures |t| == k && forall i :: 0 <= i < k ==> t[i] == if i < j - 1 then 0 else if i == j - 1 then b else 255
  {
    seq(k, i => if i < j - 1 then 0 else if i == j - 1 then b else 255)
  }

  /** One of two lengths in a row does not end where the unwritten bytes end. */
  lemma CutLengthExposes(z: bytes, k: nat) returns (t: bytes)
    requires k > 0 && |z| < 4
    ensures StringExposes(z, k, t, t)
  {
    var j := 4 - |z|;
    t := Tail(k, k, 0);
    if k < j {
      LongStringAt(z + t);
    } else {
      var zero, one := CutLength(k, j, 0), CutLength(k, j, 1);
      DeclaredByLast(z, zero, one);
      t := if Declared(z + zero) != k - j then zero else one;
      var n := Declared(z + t);
      LongStringAt(z + t);
      if n < k - j {
        assert (z + t)[4 + n] == 255;
      }
    }
  }

  /** A table whose length is cut off can be given a body of zeros, which holds no entry. */
  lemma CutTableFails(z: bytes, k: nat) returns (t: bytes)
    requires |z| < 4
    ensures |t| == k && DecodeTable(z + t) == Err
  {
    var j := 4 - |z|;
    t := Tail(k, j - 1, 1);
    LongStringAt(z + t);
    if k >= j {
      LastByte((z + t)[..4]);
      assert (z + t)[..4][3] == 1;
      var n := Declared(z + t);
      if n <= k - j {
        ZerosFail((z + t)[4..4 + n]);
      }
    }
  }

  lemma TableExposes(z: bytes, k: nat) returns (t: bytes, u: bytes)
    requires k > 0 && DecodeTable(z).Err?
    ensures Exposes(0x46, z, k, t, u)
  {
    t, u := Tail(k, k, 0), Tail(k, k, 0);
    if |z| < 4 {
      t := CutTableFails(z, k);
    } else if Declared(z) <= |z| - 4 {
      LongStringAt(z);
      LongStringLocal(z, t);
    } else {
      t, u := CutExposes(z, k);
      StringInValue(0x46, z, k, t, u);
    }
  }

  /** Unless all of the value is written, some unwritten bytes expose it. */
  lemma ValueExposes(tag: byte, z: bytes, k: nat) returns (t: bytes, u: bytes)
    requires k > 0 && DecodeTagged(tag, z).Err?
    ensures Exposes(tag, z, k, t, u)
  {
    t, u := Tail(k, k, 0), Tail(k, k, 0);
    if WidthOf(tag) != 0 {
      t, u := FixedExposes(tag, z, k);
    } else if tag == 0x44 {
      DecimalAt(z);
      t, u := DecimalExposes(z, k);
    } else if tag == 0x53 || tag == 0x78 {
      LongStringAt(z);
      if |z| < 4 {
        t := CutLengthExposes(z, k);
        u := t;
      } else {
        t, u := CutExposes(z, k);
      }
      StringInValue(tag, z, k, t, u);
    } else if tag == 0x46 {
      t, u := TableExposes(z, k);
    } else if tag == 0x41 {
      ArrayNeverDecodes(z + t);
    }
  }

  /** Whatever k unwritten bytes follow y, its entries inserted into acc give t. */
  ghost predicate Forced(acc: seq<Entry>, y: bytes, k: nat, t: seq<Entry>) {
    forall x: bytes :: |x| == k ==>
      DecodeEntries(y + x).Some? && InsertAll(acc, DecodeEntries(y + x).value) == t
  }

  lemma EntryLocal(y: bytes, x: bytes)
    requires DecodeEntry(y).Ok?
    ensures DecodeEntry(y + x) == Ok(DecodeEntry(y).value, DecodeEntry(y).rest + x)
  {
    var key := DecodeShortString(y);
    ShortStringLocal(y, x);
    assert (key.rest + x)[1..] == key.rest[1..] + x;
    TaggedLocal(key.rest[0], key.rest[1..], x);
  }

  /** An entry that is written is inserted, and it weighs no more than its bytes. */
  lemma WrittenEntry(acc: seq<Entry>, y: bytes, k: nat, t: seq<Entry>)
    requires Forced(acc, y, k, t) && y != [] && DecodeEntry(y).Ok?
    ensures var e, r := DecodeEntry(y).value, DecodeEntry(y).rest;
            Forced(Insert(acc, e), r, k, t) && WeightEntry(e) + |r| <= |y|
  {
    var e, r := DecodeEntry(y).value, DecodeEntry(y).rest;
    DecodedValue(DecodeShortString(y).rest);
    forall x: bytes | |x| == k
      ensures DecodeEntries(r + x).Some? && InsertAll(Insert(acc, e), DecodeEntries(r + x).value) == t
    {
      EntryLocal(y, x);
      assert DecodeEntries(y + x).Some?;
      assert DecodeEntries(y + x).value == [e] + DecodeEntries(r + x).value;
      assert ([e] + DecodeEntries(r + x).value)[1..] == DecodeEntries(r + x).value;
    }
  }

  lemma CutKeyFails(y: bytes, k: nat)
    requires y != [] && !(1 + y[0] < |y|)
    ensures DecodeEntries(y + Tail(k, k, 0)) == None
  {
    var bs := y + Tail(k, k, 0);
    if DecodeShortString(bs).Ok? {
      ZerosFail(DecodeShortString(bs).rest);
    }
  }

  /** An entry whose key and tag are written, by position. */
  lemma EntryAt(y: bytes, x: bytes)
    requires y != [] && 1 + y[0] < |y|
    ensures DecodeEntry(y + x)
         == match DecodeTagged(y[1 + y[0]], y[2 + y[0]..] + x)
            case Err => Err
            case Ok(v, rest) => if y[0] > MAX_KEY then Err else Ok(Entry(y[1..1 + y[0]], v), rest)
  {
    var n, bs := y[0], y + x;
    assert bs[0] == n && bs[1..1 + n] == y[1..1 + n] && bs[1 + n..] == y[1 + n..] + x;
    assert (y[1 + n..] + x)[0] == y[1 + n] && (y[1 + n..] + x)[1..] == y[2 + n..] + x;
  }

  /** The last entry, when its value takes all unwritten bytes. */
  lemma LastEntry(acc: seq<Entry>, y: bytes, k: nat, t: seq<Entry>, x: bytes)
    requires Forced(acc, y, k, t) && y != [] && 1 + y[0] < |y| && |x| == k
    requires Exhausts(y[1 + y[0]], y[2 + y[0]..], k)
    ensures y[0] <= MAX_KEY && DecodeTagged(y[1 + y[0]], y[2 + y[0]..] + x).Ok?
    ensures t == Insert(acc, Entry(y[1..1 + y[0]], DecodeTagged(y[1 + y[0]], y[2 + y[0]..] + x).value))
  {
    EntryAt(y, x);
    assert DecodeEntries(y + x).Some?;
    var e := DecodeEntry(y + x).value;
    assert DecodeEntry(y + x).rest == [] && DecodeEntries([]) == Some([]);
    assert DecodeEntries(y + x).value == [e] + [] == [e];
    assert [e][1..] == [];
    assert InsertAll(Insert(acc, e), []) == Insert(acc, e);
  }

  lemma InsertPresent(t: seq<Entry>, e: Entry)
    requires Sorted(t) && Lookup(t, e.key).Some?
    ensures Insert(t, e) == t
  {
    if e.key != t[0].key {
      if Less(e.key, t[0].key) {
        AbsentBelow(t, e.key);
      }
      InsertPresent(t[1..], e);
    }
  }

  lemma InsertAbsent(t: seq<Entry>, e: Entry)
    requires Sorted(t) && Lookup(t, e.key).None?
    ensures Lookup(Insert(t, e), e.key) == Some(e.value)
  {
    InsertFirstWins(t, e, e.key);
    LookupAppend(t, [e], e.key);
  }

  lemma NotBroken(acc: seq<Entry>, y: bytes, k: nat, t: seq<Entry>, x: bytes)
    requires Forced(acc, y, k, t) && y != [] && 1 + y[0] < |y| && |x| == k
    ensures !Breaks(DecodeTagged(y[1 + y[0]], y[2 + y[0]..] + x))
  {
    EntryAt(y, x);
    assert DecodeEntries(y + x).Some?;
    if DecodeTagged(y[1 + y[0]], y[2 + y[0]..] + x).Ok? && DecodeEntry(y + x).Ok? {
      var rest := DecodeEntry(y + x).rest;
      if rest != [] && rest[0] > MAX_KEY {
        LongKeyFails(rest);
      }
    }
  }

  /** An entry that is cut off is a duplicate, or a table that is itself forced. */
  lemma CutEntry(acc: seq<Entry>, y: bytes, k: nat, t: seq<Entry>) returns (inner: seq<Entry>)
    requires k > 0 && Sorted(acc) && Forced(acc, y, k, t) && y != [] && DecodeEntry(y).Err?
    ensures 1 + y[0] < |y| && y[0] <= MAX_KEY
    ensures var z := y[2 + y[0]..];
            t == acc
            || (t == Insert(acc, Entry(y[1..1 + y[0]], FieldTable(inner))) && |z| >= 4 && Forced([], z[4..], k, inner))
  {
    hide DecodeTagged, DecodeEntries, DecodeEntry, Insert, InsertAll;
    inner := [];
    if !(1 + y[0] < |y|) {
      CutKeyFails(y, k);
      assert false;
    }
    var key, tag, z := y[1..1 + y[0]], y[1 + y[0]], y[2 + y[0]..];
    EntryAt(y, []);
    assert y + [] == y && z + [] == z;
    if y[0] > MAX_KEY {
      LongKeyFails(y + Tail(k, k, 0));
      assert false;
    }
    var v, w := ValueExposes(tag, z, k);
    NotBroken(acc, y, k, t, v);
    NotBroken(acc, y, k, t, w);
    LastEntry(acc, y, k, t, v);
    LastEntry(acc, y, k, t, w);
    var e := Entry(key, DecodeTagged(tag, z + v).value);
    if Lookup(acc, key).Some? {
      InsertPresent(acc, e);
    } else {
      InsertAbsent(acc, e);
      InsertAbsent(acc, Entry(key, DecodeTagged(tag, z + w).value));
      NestedAt(z, k, v);
      inner := DecodeTagged(tag, z + v).value.entries;
      ForcedInside(acc, y, k, t, inner);
    }
  }

  lemma NestedAt(z: bytes, k: nat, x: bytes)
    requires EndsAt(z, k) && |x| == k && DecodeTagged(0x46, z + x).Ok?
    ensures DecodeEntries(z[4..] + x).Some?
    ensures DecodeTagged(0x46, z + x).value == FieldTable(InsertAll([], DecodeEntries(z[4..] + x).value))
  {
    LongStringAt(z + x);
    DeclaredLocal(z, x);
    assert (z + x)[4..4 + Declared(z)] == z[4..] + x;
  }

  lemma ForcedInside(acc: seq<Entry>, y: bytes, k: nat, t: seq<Entry>, inner: seq<Entry>)
    requires Sorted(acc) && Forced(acc, y, k, t) && y != [] && 1 + y[0] < |y| && y[0] <= MAX_KEY
    requires var z := y[2 + y[0]..];
             y[1 + y[0]] == 0x46 && EndsAt(z, k) && Exhausts(0x46, z, k)
    requires var key := y[1..1 + y[0]];
             Lookup(acc, key).None? && t == Insert(acc, Entry(key, FieldTable(inner)))
    ensures Forced([], y[2 + y[0]..][4..], k, inner)
  {
    hide DecodeTagged, DecodeEntries, InsertAll, Insert;
    var key, z := y[1..1 + y[0]], y[2 + y[0]..];
    InsertAbsent(acc, Entry(key, FieldTable(inner)));
    forall x: bytes | |x| == k
      ensures DecodeEntries(z[4..] + x).Some? && InsertAll([], DecodeEntries(z[4..] + x).value) == inner
    {
      LastEntry(acc, y, k, t, x);
      InsertAbsent(acc, Entry(key, DecodeTagged(0x46, z + x).value));
      NestedAt(z, k, x);
    }
  }

  lemma SomethingWritten(acc: seq<Entry>, k: nat, t: seq<Entry>)
    requires k > 0
    ensures !Forced(acc, [], k, t)
  {
    LongKeyFails([] + Tail(k, 0, 255));
  }

  lemma NestedWeight(acc: seq<Entry>, key: Key, inner: seq<Entry>)
    ensures WeightEntries(Insert(acc, Entry(key, FieldTable(inner))))
         <= WeightEntries(acc) + 1 + |key| + 5 + WeightEntries(inner)
    ensures WeightEntries([]) == 0
  {
    InsertWeight(acc, Entry(key, FieldTable(inner)));
  }

  /** What comes out whatever the unwritten bytes hold weighs less than what is written. */
  lemma {:induction false} ForcedIsLight(acc: seq<Entry>, y: bytes, k: nat, t: seq<Entry>)
    requires k > 0 && Sorted(acc) && Forced(acc, y, k, t)
    ensures WeightEntries(t) < WeightEntries(acc) + |y|
    decreases |y|
  {
    hide DecodeEntry, Insert, Forced, WeightEntry;
    if y == [] {
      SomethingWritten(acc, k, t);
    } else if DecodeEntry(y).Ok? {
      var e := DecodeEntry(y).value;
      WrittenEntry(acc, y, k, t);
      InsertFirstWins(acc, e, []);
      InsertWeight(acc, e);
      ForcedIsLight(Insert(acc, e), DecodeEntry(y).rest, k, t);
    } else {
      var inner := CutEntry(acc, y, k, t);
      if t != acc {
        ForcedIsLight([], y[2 + y[0]..][4..], k, inner);
        NestedWeight(acc, y[1..1 + y[0]], inner);
      }
    }
  }
}
