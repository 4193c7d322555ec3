/**
 * Method readers on an encoding followed by bytes that were never written: a method that comes back whatever they
 * hold does not depend on them at all, and one that does depend on them can still come back by chance.
 */
module Unwritten {
  import opened Bytes
  import opened Bits
  import opened Streams
  import opened FieldTable
  import opened Wireformat
  import opened TableCodec
  import opened TableTheorems
  import opened MethodCodec
  import opened MethodStreams
  import opened UnwrittenTables

  // ---- arguments ----

  lemma RawLocal(d: Domain, z: bytes, t: bytes)
    requires d != Bit && DecodeRaw(d, z).Ok?
    ensures DecodeRaw(d, z + t) == Ok(DecodeRaw(d, z).value, DecodeRaw(d, z).rest + t)
  {
    if d == ShortStr {
      ShortStringLocal(z, t);
    } else if d == LongStr || d == Table {
      LongStringLocal(z, t);
    } else {
      UintLocal(z, t, NumWidth(d));
    }
  }

  /** Whatever k unwritten bytes follow y, they decode to the arguments i and up of `all`. */
  ghost predicate ArgsForced(ds: seq<Domain>, y: bytes, k: nat, i: nat, all: seq<Arg>)
    requires RunsFit(ds) && i <= |ds| && |all| == |ds|
  {
    forall x: bytes :: |x| == k ==> DecodeFrom(ds, y + x, i).Ok? && DecodeFrom(ds, y + x, i).value == all[i..]
  }

  ghost predicate ArgForced(d: Domain, y: bytes, k: nat, a: Arg)
    requires d != Bit
  {
    forall x: bytes :: |x| == k ==> DecodeArg(d, y + x).Ok? && DecodeArg(d, y + x).value == a
  }

  lemma StringExposesTails(z: bytes, k: nat) returns (t: bytes, u: bytes)
    requires k > 0 && DecodeLongString(z).Err?
    ensures |t| == |u| == k
    ensures DecodeLongString(z + t).Err? || DecodeLongString(z + u).Err?
            || DecodeLongString(z + t).value != DecodeLongString(z + u).value
  {
    LongStringAt(z);
    t, u := Tail(k, k, 0), Tail(k, k - 1, 1);
    if |z| < 4 {
      var j := 4 - |z|;
      u := Tail(k, j - 1, 1);
      LongStringAt(z + t);
      LongStringAt(z + u);
      if k >= j {
        DeclaredByLast(z, t, u);
      }
    } else {
      var n := Declared(z);
      u := Tail(k, n + 3 - |z|, 1);
      LongStringAt(z + t);
      LongStringAt(z + u);
      DeclaredLocal(z, t);
      DeclaredLocal(z, u);
      if n <= |z| + k - 4 {
        assert (z + t)[4..4 + n][n - 1] == 0 && (z + u)[4..4 + n][n - 1] == 1;
      }
    }
  }

  lemma ShortStringExposes(z: bytes, k: nat) returns (t: bytes, u: bytes)
    requires k > 0 && DecodeShortString(z).Err?
    ensures |t| == |u| == k
    ensures DecodeShortString(z + t).Err? || DecodeShortString(z + u).Err?
            || DecodeShortString(z + t).value != DecodeShortString(z + u).value
  {
    t, u := Tail(k, k, 0), Tail(k, 0, 1);
    if z != [] {
      var n := z[0];
      u := Tail(k, n - |z|, 1);
      if n <= |z| + k - 1 {
        assert (z + t)[1..1 + n][n - 1] == 0 && (z + u)[1..1 + n][n - 1] == 1;
      }
    }
  }

  lemma UintExposes(z: bytes, k: nat, w: nat) returns (t: bytes, u: bytes)
    requires k > 0 && |z| < w
    ensures |t| == |u| == k
    ensures ReadUint(z + t, w).Err? || ReadUint(z + u, w).Err?
            || (ReadUint(z + t, w).value % 2 == 0 && ReadUint(z + u, w).value % 2 == 1)
  {
    t, u := Tail(k, k, 0), Tail(k, w - 1 - |z|, 1);
    if w <= |z| + k {
      LastByteParity((z + t)[..w], 0);
      LastByteParity((z + u)[..w], 1);
    }
  }

  lemma LastByteParity(bs: bytes, b: nat)
    requires bs != [] && bs[|bs| - 1] == b < 2
    ensures FromBE(bs) % 2 == b
  {
    LastByte(bs);
  }

  /** A table whose length is written and whose body the unwritten bytes complete. */
  ghost predicate TableCut(d: Domain, y: bytes, k: nat, a: Arg) {
    && d == Table && |y| >= 4 && |y| - 4 < Declared(y) <= |y| - 4 + k
    && a.Tab? && |EncodeTable(a.t)| < |y|
  }

  lemma ArgParts(d: Domain, bs: bytes)
    requires d != Bit && DecodeArg(d, bs).Ok?
    ensures var v := DecodeArg(d, bs).value;
            && (d == ShortStr ==> DecodeShortString(bs).Ok? && v == Str(DecodeShortString(bs).value))
            && (d == LongStr ==> DecodeLongString(bs).Ok? && v == Str(DecodeLongString(bs).value))
            && (d == Table ==> DecodeTable(bs).Ok? && v == Tab(DecodeTable(bs).value))
            && (NumWidth(d) > 0 ==> ReadUint(bs, NumWidth(d)).Ok? && v == Num(ReadUint(bs, NumWidth(d)).value))
  {
    hide DecodeShortString, DecodeLongString, DecodeTable, ReadUint;
  }

  /** Two ways to fill the unwritten bytes, both of which the argument comes back from. */
  lemma BothFill(d: Domain, y: bytes, k: nat, a: Arg, t: bytes, u: bytes)
    requires d != Bit && ArgForced(d, y, k, a) && |t| == |u| == k
    ensures DecodeArg(d, y + t).Ok? && DecodeArg(d, y + u).Ok?
    ensures DecodeArg(d, y + t).value == DecodeArg(d, y + u).value == a
  {
    hide DecodeArg;
  }

  lemma StringWritten(d: Domain, y: bytes, k: nat, a: Arg)
    requires (d == ShortStr || d == LongStr) && k > 0 && ArgForced(d, y, k, a)
    ensures DecodeRaw(d, y).Ok?
  {
    if DecodeRaw(d, y).Err? {
      var t, u;
      if d == ShortStr {
        t, u := ShortStringExposes(y, k);
      } else {
        t, u := StringExposesTails(y, k);
      }
      hide DecodeArg, DecodeRaw, DecodeShortString, DecodeLongString, ArgForced;
      BothFill(d, y, k, a, t, u);
      ArgParts(d, y + t);
      ArgParts(d, y + u);
    }
  }

  lemma NumberWritten(d: Domain, y: bytes, k: nat, a: Arg)
    requires NumWidth(d) > 0 && k > 0 && ArgForced(d, y, k, a)
    ensures DecodeRaw(d, y).Ok?
  {
    if |y| < NumWidth(d) {
      var t, u := UintExposes(y, k, NumWidth(d));
      hide DecodeArg, ReadUint, ArgForced;
      BothFill(d, y, k, a, t, u);
      ArgParts(d, y + t);
      ArgParts(d, y + u);
    }
  }

  /** An argument that comes back whatever follows is written, or is a table lighter than what is written of it. */
  lemma ArgWrittenOrCut(d: Domain, y: bytes, k: nat, a: Arg)
    requires d != Bit && k > 0 && ArgForced(d, y, k, a)
    ensures (DecodeArg(d, y).Ok? && DecodeArg(d, y).value == a) || TableCut(d, y, k, a)
  {
    if DecodeRaw(d, y).Ok? {
      RawLocal(d, y, Tail(k, k, 0));
      hide DecodeRaw;
    } else if d == ShortStr || d == LongStr {
      StringWritten(d, y, k, a);
    } else if d == Table {
      TableForced(y, k, a);
    } else {
      NumberWritten(d, y, k, a);
    }
  }

  lemma TableForced(y: bytes, k: nat, a: Arg)
    requires k > 0 && ArgForced(Table, y, k, a) && DecodeTable(y).Err?
    ensures TableCut(Table, y, k, a)
  {
    var zeros := Tail(k, k, 0);
    assert DecodeArg(Table, y + zeros).Ok?;
    if |y| < 4 {
      var t := CutTableFails(y, k);
      assert false;
    }
    LongStringAt(y);
    LongStringAt(y + zeros);
    DeclaredLocal(y, zeros);
    if Declared(y) <= |y| - 4 {
      LongStringLocal(y, zeros);
      assert false;
    }
    var j := Declared(y) + 4 - |y|;
    forall x: bytes | |x| == j
      ensures DecodeEntries(y[4..] + x).Some? && InsertAll([], DecodeEntries(y[4..] + x).value) == a.t
    {
      TableBody(y, j, k, a, x);
    }
    ForcedIsLight([], y[4..], j, a.t);
  }

  lemma TableBody(y: bytes, j: nat, k: nat, a: Arg, x: bytes)
    requires |y| >= 4 && Declared(y) == |y| - 4 + j && |x| == j <= k && ArgForced(Table, y, k, a)
    ensures a.Tab? && DecodeEntries(y[4..] + x).Some? && InsertAll([], DecodeEntries(y[4..] + x).value) == a.t
  {
    hide DecodeArg, ArgForced, DecodeEntries, InsertAll;
    var tail := x + Tail(k - j, k, 0);
    LongStringAt(y + tail);
    DeclaredLocal(y, tail);
    assert (y + tail)[4..4 + Declared(y)] == y[4..] + x;
    BothFill(Table, y, k, a, tail, tail);
    ArgParts(Table, y + tail);
  }

  /** The head of a forced list is forced. */
  lemma HeadForced(ds: seq<Domain>, y: bytes, k: nat, i: nat, all: seq<Arg>)
    requires RunsFit(ds) && i < |ds| && !IsBit(ds, i) && |all| == |ds| && ArgsForced(ds, y, k, i, all)
    ensures ArgForced(ds[i], y, k, all[i])
  {
    hide DecodeArg;
    forall x: bytes | |x| == k ensures DecodeArg(ds[i], y + x).Ok? && DecodeArg(ds[i], y + x).value == all[i] {
      assert DecodeFrom(ds, y + x, i).Ok?;
      assert DecodeFrom(ds, y + x, i).value[0] == all[i..][0];
    }
  }

  lemma ArgLocal(d: Domain, y: bytes, x: bytes)
    requires d != Bit && DecodeArg(d, y).Ok?
    ensures DecodeArg(d, y + x) == Ok(DecodeArg(d, y).value, DecodeArg(d, y).rest + x)
  {
    RawLocal(d, y, x);
    hide DecodeRaw;
  }

  /** One argument and those after it. */
  lemma DecodeCons(ds: seq<Domain>, bs: bytes, i: nat)
    requires RunsFit(ds) && i < |ds| && !IsBit(ds, i) && DecodeArg(ds[i], bs).Ok?
    ensures DecodeFrom(ds, bs, i)
         == Prepend([DecodeArg(ds[i], bs).value], DecodeFrom(ds, DecodeArg(ds[i], bs).rest, i + 1))
  {
    hide DecodeArg;
  }

  lemma SplitHead(all: seq<Arg>, i: nat)
    requires i < |all|
    ensures all[i..] == [all[i]] + all[i + 1..]
  {
  }

  lemma TailForced(ds: seq<Domain>, y: bytes, k: nat, i: nat, all: seq<Arg>)
    requires RunsFit(ds) && i < |ds| && !IsBit(ds, i) && |all| == |ds| && ArgsForced(ds, y, k, i, all)
    requires DecodeArg(ds[i], y).Ok? && DecodeArg(ds[i], y).value == all[i]
    ensures ArgsForced(ds, DecodeArg(ds[i], y).rest, k, i + 1, all)
  {
    hide DecodeArg, DecodeFrom;
    var r := DecodeArg(ds[i], y).rest;
    SplitHead(all, i);
    forall x: bytes | |x| == k
      ensures DecodeFrom(ds, r + x, i + 1).Ok? && DecodeFrom(ds, r + x, i + 1).value == all[i + 1..]
    {
      ArgLocal(ds[i], y, x);
      DecodeCons(ds, y + x, i);
      assert DecodeFrom(ds, y + x, i).Ok?;
      PrependIff(DecodeFrom(ds, r + x, i + 1), [all[i]], all[i + 1..], DecodeFrom(ds, y + x, i).rest);
    }
  }

  /** After a table that takes j of the unwritten bytes, the arguments that follow are all unwritten. */
  lemma TailUnwritten(ds: seq<Domain>, y: bytes, k: nat, j: nat, i: nat, all: seq<Arg>)
    requires RunsFit(ds) && i < |ds| && ds[i] == Table && |all| == |ds| && ArgsForced(ds, y, k, i, all)
    requires |y| >= 4 && 0 < j <= k && Declared(y) == |y| - 4 + j
    ensures ArgsForced(ds, [], k - j, i + 1, all)
  {
    hide DecodeArg, DecodeFrom, ArgForced;
    HeadForced(ds, y, k, i, all);
    SplitHead(all, i);
    forall x: bytes | |x| == k - j
      ensures DecodeFrom(ds, [] + x, i + 1).Ok? && DecodeFrom(ds, [] + x, i + 1).value == all[i + 1..]
    {
      var t := Tail(j, j, 0) + x;
      BothFill(Table, y, k, all[i], t, t);
      TableRest(y, j, x);
      DecodeCons(ds, y + t, i);
      assert [] + x == x;
      assert DecodeFrom(ds, y + t, i).Ok?;
      PrependIff(DecodeFrom(ds, x, i + 1), [all[i]], all[i + 1..], DecodeFrom(ds, y + t, i).rest);
    }
  }

  lemma TableRest(y: bytes, j: nat, x: bytes)
    requires |y| >= 4 && Declared(y) == |y| - 4 + j && DecodeArg(Table, y + (Tail(j, j, 0) + x)).Ok?
    ensures DecodeArg(Table, y + (Tail(j, j, 0) + x)).rest == x
  {
    var t := Tail(j, j, 0) + x;
    LongStringAt(y + t);
    DeclaredLocal(y, t);
    assert (y + t)[4 + Declared(y)..] == x;
  }

  lemma RunForced(ds: seq<Domain>, y: bytes, k: nat, i: nat, all: seq<Arg>)
    requires RunsFit(ds) && IsBit(ds, i) && Typed(ds, all) && ArgsForced(ds, y, k, i, all)
    requires ReadUint(y, FieldBytes(RunLength(ds, i))).Ok?
    ensures var r := ReadUint(y, FieldBytes(RunLength(ds, i))).rest;
            ArgsForced(ds, r, k, RunEnd(ds, i), all)
  {
    hide DecodeFrom, FieldBytes;
    var e, w := RunEnd(ds, i), FieldBytes(RunLength(ds, i));
    var bits, r := ReadUint(y, w).value, ReadUint(y, w).rest;
    SplitArgs(all, i, e);
    forall x: bytes | |x| == k ensures DecodeFrom(ds, r + x, e).Ok? && DecodeFrom(ds, r + x, e).value == all[e..] {
      UintLocal(y, x, w);
      DecodeRun(ds, y + x, i, bits, r + x);
      assert DecodeFrom(ds, y + x, i).Ok?;
      DropRun(FlagArgs(bits, 0, RunLength(ds, i)), DecodeFrom(ds, r + x, e), all, i, e);
    }
  }

  lemma DropRun(flags: seq<Arg>, p: Parsed<seq<Arg>>, all: seq<Arg>, i: nat, e: nat)
    requires i <= e <= |all| && |flags| == e - i
    requires Prepend(flags, p).Ok? && Prepend(flags, p).value == all[i..]
    ensures p.Ok? && p.value == all[e..]
  {
    assert p.value == (flags + p.value)[e - i..] == all[i..][e - i..] == all[e..];
  }

  /** A bit field that is cut off gives its first flag both values. */
  lemma FieldWritten(ds: seq<Domain>, y: bytes, k: nat, i: nat, all: seq<Arg>)
    requires RunsFit(ds) && IsBit(ds, i) && |all| == |ds| && k > 0 && ArgsForced(ds, y, k, i, all)
    ensures ReadUint(y, FieldBytes(RunLength(ds, i))).Ok?
  {
    hide DecodeFrom, FieldBytes, GetBit, FlagArgs;
    var w := FieldBytes(RunLength(ds, i));
    if |y| < w {
      var t, u := UintExposes(y, k, w);
      FirstFlag(ds, y, k, i, all, t);
      FirstFlag(ds, y, k, i, all, u);
      GetBitIsBit(ReadUint(y + t, w).value, 0);
      GetBitIsBit(ReadUint(y + u, w).value, 0);
    }
  }

  lemma FirstFlag(ds: seq<Domain>, y: bytes, k: nat, i: nat, all: seq<Arg>, x: bytes)
    requires RunsFit(ds) && IsBit(ds, i) && |all| == |ds| && ArgsForced(ds, y, k, i, all) && |x| == k
    ensures var p := ReadUint(y + x, FieldBytes(RunLength(ds, i)));
            p.Ok? && all[i] == Flag(GetBit(p.value, 0))
  {
    hide FieldBytes, GetBit;
    var w := FieldBytes(RunLength(ds, i));
    assert DecodeFrom(ds, y + x, i).Ok?;
    var bits := ReadUint(y + x, w).value;
    var flags := FlagArgs(bits, 0, RunLength(ds, i));
    assert DecodeFrom(ds, y + x, i).value[0] == flags[0] == Flag(GetBit(bits, 0));
    assert all[i..][0] == all[i];
  }

  /** Arguments that come back whatever follows are written, or encode to less than what is written. */
  lemma {:induction false} ForcedArgs(ds: seq<Domain>, y: bytes, k: nat, i: nat, all: seq<Arg>)
    requires RunsFit(ds) && i <= |ds| && Typed(ds, all) && ArgsForced(ds, y, k, i, all)
    ensures |EncodeFrom(ds, all, i)| < |y| || (DecodeFrom(ds, y, i).Ok? && DecodeFrom(ds, y, i).value == all[i..])
    decreases |ds| - i
  {
    hide DecodeArg, EncodeArg, ArgsForced, FieldBytes;
    if k == 0 {
      NothingUnwritten(ds, y, i, all);
    } else if i == |ds| {
    } else if IsBit(ds, i) {
      FieldWritten(ds, y, k, i, all);
      RunForced(ds, y, k, i, all);
      ForcedArgs(ds, ReadUint(y, FieldBytes(RunLength(ds, i))).rest, k, RunEnd(ds, i), all);
      RunBack(ds, y, k, i, all);
    } else {
      HeadForced(ds, y, k, i, all);
      ArgWrittenOrCut(ds[i], y, k, all[i]);
      if DecodeArg(ds[i], y).Ok? && DecodeArg(ds[i], y).value == all[i] {
        TailForced(ds, y, k, i, all);
        ForcedArgs(ds, DecodeArg(ds[i], y).rest, k, i + 1, all);
        ArgBack(ds, y, i, all);
      } else {
        var j := Declared(y) + 4 - |y|;
        TailUnwritten(ds, y, k, j, i, all);
        ForcedArgs(ds, [], k - j, i + 1, all);
        NothingLeft(ds, i + 1, all);
        TableAlone(ds, y, k, i, all);
      }
    }
  }

  lemma NothingUnwritten(ds: seq<Domain>, y: bytes, i: nat, all: seq<Arg>)
    requires RunsFit(ds) && i <= |ds| && |all| == |ds| && ArgsForced(ds, y, 0, i, all)
    ensures DecodeFrom(ds, y, i).Ok? && DecodeFrom(ds, y, i).value == all[i..]
  {
    hide DecodeFrom;
    assert y + [] == y;
    assert DecodeFrom(ds, y + [], i).Ok?;
  }

  lemma NothingLeft(ds: seq<Domain>, i: nat, all: seq<Arg>)
    requires RunsFit(ds) && i <= |ds| && Typed(ds, all)
    requires DecodeFrom(ds, [], i).Ok? && DecodeFrom(ds, [], i).value == all[i..]
    ensures EncodeFrom(ds, all, i) == []
  {
    ArgsConsume(ds, [], i, all);
  }

  lemma TableAlone(ds: seq<Domain>, y: bytes, k: nat, i: nat, all: seq<Arg>)
    requires RunsFit(ds) && i < |ds| && Typed(ds, all)
    requires TableCut(ds[i], y, k, all[i]) && EncodeFrom(ds, all, i + 1) == []
    ensures |EncodeFrom(ds, all, i)| < |y|
  {
    assert EncodeArg(ds[i], all[i]) == EncodeTable(all[i].t);
  }

  lemma RunBack(ds: seq<Domain>, y: bytes, k: nat, i: nat, all: seq<Arg>)
    requires RunsFit(ds) && IsBit(ds, i) && Typed(ds, all) && ArgsForced(ds, y, k, i, all)
    requires ReadUint(y, FieldBytes(RunLength(ds, i))).Ok?
    requires var r, e := ReadUint(y, FieldBytes(RunLength(ds, i))).rest, RunEnd(ds, i);
             |EncodeFrom(ds, all, e)| < |r| || (DecodeFrom(ds, r, e).Ok? && DecodeFrom(ds, r, e).value == all[e..])
    ensures |EncodeFrom(ds, all, i)| < |y| || (DecodeFrom(ds, y, i).Ok? && DecodeFrom(ds, y, i).value == all[i..])
  {
    hide FieldBytes, FlagArgs, GetBit;
    var e, w := RunEnd(ds, i), FieldBytes(RunLength(ds, i));
    var bits, r := ReadUint(y, w).value, ReadUint(y, w).rest;
    if |EncodeFrom(ds, all, e)| >= |r| {
      SplitArgs(all, i, e);
      RunFlags(ds, y, k, i, all);
      DecodeRun(ds, y, i, bits, r);
    }
  }

  lemma RunFlags(ds: seq<Domain>, y: bytes, k: nat, i: nat, all: seq<Arg>)
    requires RunsFit(ds) && IsBit(ds, i) && |all| == |ds| && ArgsForced(ds, y, k, i, all)
    requires ReadUint(y, FieldBytes(RunLength(ds, i))).Ok?
    ensures var bits := ReadUint(y, FieldBytes(RunLength(ds, i))).value;
            FlagArgs(bits, 0, RunLength(ds, i)) == all[i..RunEnd(ds, i)]
  {
    hide FieldBytes, GetBit, FlagArgs;
    var e, w, x := RunEnd(ds, i), FieldBytes(RunLength(ds, i)), Tail(k, k, 0);
    var bits, r := ReadUint(y, w).value, ReadUint(y, w).rest;
    UintLocal(y, x, w);
    DecodeRun(ds, y + x, i, bits, r + x);
    assert DecodeFrom(ds, y + x, i).Ok?;
    var flags := FlagArgs(bits, 0, RunLength(ds, i));
    assert flags == DecodeFrom(ds, y + x, i).value[..e - i] == all[i..][..e - i] == all[i..e];
  }

  lemma ArgBack(ds: seq<Domain>, y: bytes, i: nat, all: seq<Arg>)
    requires RunsFit(ds) && i < |ds| && !IsBit(ds, i) && Typed(ds, all)
    requires DecodeArg(ds[i], y).Ok? && DecodeArg(ds[i], y).value == all[i]
    requires var r := DecodeArg(ds[i], y).rest;
             |EncodeFrom(ds, all, i + 1)| < |r|
             || (DecodeFrom(ds, r, i + 1).Ok? && DecodeFrom(ds, r, i + 1).value == all[i + 1..])
    ensures |EncodeFrom(ds, all, i)| < |y| || (DecodeFrom(ds, y, i).Ok? && DecodeFrom(ds, y, i).value == all[i..])
  {
    hide DecodeArg, EncodeArg;
    ArgConsumes(ds[i], y);
    SplitHead(all, i);
  }

  // ---- methods ----

  /** The method comes back from its encoding and what follows it. */
  predicate ComesBack(spec: Schema, m: Method, bs: bytes)
    requires SchemaFits(spec) && Belongs(spec, m)
  {
    DecodeMethod(spec, EncodeMethod(spec, m) + bs).Ok? && DecodeMethod(spec, EncodeMethod(spec, m) + bs).value == m
  }

  /** A method comes back whatever k unwritten bytes follow its encoding if and only if its arguments survive. */
  lemma {:induction false} AlwaysComesBackIff(spec: Schema, m: Method, k: nat)
    requires SchemaFits(spec) && Belongs(spec, m)
    ensures (forall x: bytes :: |x| == k ==> ComesBack(spec, m, x)) <==> AllSurvive(Domains(spec, m), m.args, 0)
  {
    var ds := Domains(spec, m);
    if AllSurvive(ds, m.args, 0) {
      forall x: bytes | |x| == k ensures ComesBack(spec, m, x) {
        MethodRoundTripIff(spec, m, x);
      }
    }
    if forall x: bytes :: |x| == k ==> ComesBack(spec, m, x) {
      BodyForced(spec, m, k);
      ForcedArgs(ds, EncodeFrom(ds, m.args, 0), k, 0, m.args);
      ArgsConsume(ds, EncodeFrom(ds, m.args, 0), 0, m.args);
      ArgsRoundTripIff(ds, m.args, 0, []);
      var body := EncodeFrom(ds, m.args, 0);
      assert body + [] == body;
    }
  }

  lemma BodyForced(spec: Schema, m: Method, k: nat)
    requires SchemaFits(spec) && Belongs(spec, m) && forall x: bytes :: |x| == k ==> ComesBack(spec, m, x)
    ensures ArgsForced(Domains(spec, m), EncodeFrom(Domains(spec, m), m.args, 0), k, 0, m.args)
  {
    hide DecodeFrom, EncodeFrom;
    var ds := Domains(spec, m);
    var body := EncodeFrom(ds, m.args, 0);
    assert m.args[0..] == m.args;
    forall x: bytes | |x| == k ensures DecodeFrom(ds, body + x, 0).Ok? && DecodeFrom(ds, body + x, 0).value == m.args {
      assert ComesBack(spec, m, x);
      Regroup(BE(m.classId, 2), BE(m.methodId, 2) + body, x);
      Regroup(BE(m.methodId, 2), body, x);
      DecodeMethodHeader(spec, m.classId, m.methodId, body + x);
    }
  }

  // ---- what can come back by chance ----

  lemma OneEntry(e: Entry)
    ensures EncodeEntries([e]) == EncodeEntry(e) && SizeEntries([e]) == SizeEntry(e)
    ensures WritableEntries([e]) == Writable(e.value) && forall k :: CountEntries(k, [e]) == Count(k, e.value)
  {
    hide EncodeEntry, SizeEntry, Writable, Count;
    assert [e][1..] == [];
    assert EncodeEntry(e) + [] == EncodeEntry(e);
  }

  /** A second entry under a key that is there already is read and dropped. */
  lemma Repeated(e: Entry, again: Entry)
    requires e.value.Decimal? && again == Entry(e.key, Void)
    ensures var body := EncodeEntry(e) + EncodeEntry(again);
            DecodeEntries(body) == Some([e, again]) && InsertAll([], [e, again]) == [e]
  {
    var junk := EncodeEntry(again);
    DecimalReads(e.value, junk);
    DecodeEntryAfterWrite(e, e.value, junk);
    ReadAfterWrite(Void, []);
    DecodeEntryAfterWrite(again, Void, []);
    assert junk + [] == junk;
    NoEntries();
    hide EncodeEntry, EncodeValue, DecodeEntry, DecodeEntries, DecodeValue;
    DecodeEntriesStep(junk, again, [], []);
    assert [again] + [] == [again] && [e] + [again] == [e, again];
    DecodeEntriesStep(EncodeEntry(e) + junk, e, junk, [again]);
    InsertAllFirst(e, again);
  }

  lemma NoEntries()
    ensures DecodeEntries([]) == Some([])
  {
  }

  lemma InsertAllFirst(e: Entry, again: Entry)
    requires e.key == again.key
    ensures InsertAll([], [e, again]) == [e]
  {
    assert [e, again][1..] == [again] && [again][1..] == [];
    assert InsertAll([e], [again]) == InsertAll([e], []) == [e];
  }

  lemma DecimalRepeated(e: Entry, again: Entry)
    requires e.value.Decimal? && |e.key| == 1 && again == Entry(e.key, Void)
    ensures |EncodeEntries([e])| == 8 && SizeEntries([e]) == 11 && |EncodeEntry(again)| == 3
    ensures WritableEntries([e]) && !Exact([e])
    ensures DecodeTable(EncodeTable([e]) + EncodeEntry(again)) == Ok([e], [])
  {
    OneEntry(e);
    EntryLengths(e, again);
    Repeated(e, again);
    hide EncodeEntry, EncodeEntries, SizeEntry, SizeEntries, DecodeEntries, InsertAll;
    var body := EncodeEntry(e) + EncodeEntry(again);
    LongStringIff(EncodeLongString(body) + [], body, []);
    assert EncodeLongString(body) + [] == EncodeLongString(body);
    Regroup(TablePrefix([e]), EncodeEntry(e), EncodeEntry(again));
  }

  lemma EntryLengths(e: Entry, again: Entry)
    requires e.value.Decimal? && |e.key| == 1 && again == Entry(e.key, Void)
    ensures |EncodeEntry(e)| == 8 && SizeEntry(e) == 11 && |EncodeEntry(again)| == 3
  {
  }

  lemma DecimalReads(v: Value, r: bytes)
    requires v.Decimal?
    ensures DecodeValue(EncodeValue(v) + r) == Ok(v, r)
  {
    var n := ToUnsigned(v.value, TWO32);
    var tail := BE(n, 4) + r;
    Pow256Values();
    ReadUintIff(tail, 4, n, r);
    assert EncodeValue(v) + r == [0x44] + ([v.magnitude] + tail);
    DecodeTag(0x44, [v.magnitude] + tail);
    assert BE(v.magnitude / 256, 0) == [] && BE(v.magnitude, 1) == [v.magnitude];
    ReadUintIff([v.magnitude] + tail, 1, v.magnitude, tail);
  }

  lemma LastTable(ds: seq<Domain>, args: seq<Arg>, i: nat)
    requires Typed(ds, args) && RunsFit(ds) && i + 1 == |ds| && ds[i] == Table
    ensures EncodeFrom(ds, args, i) == EncodeTable(args[i].t) && SizeFrom(ds, args, i) == 4 + SizeEntries(args[i].t)
  {
    assert EncodeTable(args[i].t) + [] == EncodeTable(args[i].t);
  }

  lemma LastTableDecodes(ds: seq<Domain>, bs: bytes, i: nat, es: seq<Entry>)
    requires RunsFit(ds) && i + 1 == |ds| && ds[i] == Table && DecodeTable(bs) == Ok(es, [])
    ensures DecodeFrom(ds, bs, i) == Ok([Tab(es)], [])
  {
    hide DecodeTable;
    assert [Tab(es)] + [] == [Tab(es)];
  }

  /** A method of one table. */
  lemma TableMethod(spec: Schema, m: Method, es: seq<Entry>, rest: bytes)
    requires SchemaFits(spec) && Belongs(spec, m) && Domains(spec, m) == [Table] && m.args == [Tab(es)]
    requires DecodeTable(EncodeTable(es) + rest) == Ok(es, [])
    ensures |EncodeMethod(spec, m)| == 8 + |EncodeEntries(es)| && SizeMethod(spec, m) == 8 + SizeEntries(es)
    ensures DecodeMethod(spec, EncodeMethod(spec, m) + rest) == Ok(m, [])
  {
    hide DecodeMethod, EncodeFrom, DecodeFrom, SizeFrom, DecodeTable, EncodeEntries;
    var ds := Domains(spec, m);
    LastTable(ds, m.args, 0);
    LastTableDecodes(ds, EncodeTable(es) + rest, 0, es);
    Regroup(BE(m.classId, 2), BE(m.methodId, 2) + EncodeTable(es), rest);
    Regroup(BE(m.methodId, 2), EncodeTable(es), rest);
    DecodeMethodHeader(spec, m.classId, m.methodId, EncodeTable(es) + rest);
  }
}
