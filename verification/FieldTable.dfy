/** Field values and field tables (table_entry.h, table.h). A table is its entries in std::map order. */
module FieldTable {
  import opened Bytes
  import opened Streams

  const MAX_KEY: nat := 128

  /** A key that validate_key_name accepts. */
  type Key = k: bytes | |k| <= MAX_KEY

  datatype Value =
    | Boolean(b: bool)
    | Int8(i8: int8)
    | Int16(i16: int16)
    | Int32(i32: int32)
    | Int64(i64: int64)
    | Float(f: uint32)        // bit pattern
    | Double(d: uint64)       // bit pattern
    | Decimal(magnitude: uint8, value: int32)
    | LongString(s: bytes)
    | FieldArray(elems: seq<Value>)
    | Timestamp(time: uint64)
    | FieldTable(entries: seq<Entry>)
    | Void
    | ByteArray(data: bytes)

  datatype Entry = Entry(key: Key, value: Value)

  /** The constructors of table_entry throw on a key that is too long. */
  function MakeEntry(key: bytes, value: Value): Option<Entry> {
    if |key| > MAX_KEY then None else Some(Entry(key, value))
  }

  // ---- std::map order ----

  /** std::string's operator<: lexicographic on unsigned bytes. */
  predicate Less(a: bytes, b: bytes) {
    if b == [] then false
    else if a == [] then true
    else a[0] < b[0] || (a[0] == b[0] && Less(a[1..], b[1..]))
  }

  /** Where the keys part, the first one ends or has the smaller byte. */
  predicate PartsAt(a: bytes, b: bytes, n: nat) {
    n <= |a| && n < |b| && a[..n] == b[..n] && (n == |a| || a[n] < b[n])
  }

  lemma {:induction false} LessIff(a: bytes, b: bytes)
    ensures Less(a, b) <==> exists n: nat :: PartsAt(a, b, n)
  {
    if a != [] && b != [] {
      assert a == [a[0]] + a[1..] && b == [b[0]] + b[1..];
      LessIff(a[1..], b[1..]);
      if a[0] == b[0] {
        forall n: nat ensures PartsAt(a[1..], b[1..], n) <==> PartsAt(a, b, n + 1) {
          PartsLater(a, b, n);
        }
        forall n: nat | PartsAt(a, b, n) ensures n > 0 && PartsAt(a[1..], b[1..], n - 1) {
          PartsLater(a, b, n - 1);
        }
      } else if a[0] < b[0] {
        assert PartsAt(a, b, 0);
      }
    } else if a == [] && b != [] {
      assert PartsAt(a, b, 0);
    }
  }

  lemma PartsLater(a: bytes, b: bytes, n: int)
    requires a != [] && b != [] && a[0] == b[0] && n >= 0
    ensures PartsAt(a[1..], b[1..], n) <==> PartsAt(a, b, n + 1)
  {
    if n < |a| && n < |b| {
      assert a[..n + 1] == [a[0]] + a[1..][..n] && b[..n + 1] == [b[0]] + b[1..][..n];
      assert a[1..][..n] == a[..n + 1][1..] && b[1..][..n] == b[..n + 1][1..];
    }
  }

  lemma {:induction false} LessTransitive(a: bytes, b: bytes, c: bytes)
    requires Less(a, b) && Less(b, c)
    ensures Less(a, c)
    decreases |a|
  {
    if a != [] && a[0] == b[0] == c[0] {
      LessTransitive(a[1..], b[1..], c[1..]);
    }
  }

  lemma {:induction false} LessTotal(a: bytes, b: bytes)
    ensures Less(a, b) || a == b || Less(b, a)
    ensures !(Less(a, b) && Less(b, a)) && !Less(a, a)
    decreases |a|
  {
    if a != [] {
      LessTotal(a[1..], a[1..]);
      if b != [] {
        LessTotal(a[1..], b[1..]);
        assert a == [a[0]] + a[1..] && b == [b[0]] + b[1..];
      }
    }
  }

  /** Keys strictly increase, as in a std::map; applies to one level. */
  predicate Sorted(es: seq<Entry>) {
    |es| <= 1 || (Less(es[0].key, es[1].key) && Sorted(es[1..]))
  }

  /** The value of the first entry with key k. */
  function Lookup(es: seq<Entry>, k: bytes): Option<Value> {
    if es == [] then None
    else if es[0].key == k then Some(es[0].value)
    else Lookup(es[1..], k)
  }

  /** std::map::insert: the entry goes to its place, unless its key is already there. */
  function Insert(t: seq<Entry>, e: Entry): (r: seq<Entry>)
    ensures r != [] && (r[0] == e || (t != [] && r[0] == t[0]))
  {
    if t == [] then [e]
    else if e.key == t[0].key then t
    else if Less(e.key, t[0].key) then [e] + t
    else [t[0]] + Insert(t[1..], e)
  }

  function InsertAll(t: seq<Entry>, es: seq<Entry>): seq<Entry>
    decreases |es|
  {
    if es == [] then t else InsertAll(Insert(t, es[0]), es[1..])
  }

  lemma {:induction false} AbsentBelow(t: seq<Entry>, k: bytes)
    requires Sorted(t) && t != [] && Less(k, t[0].key)
    ensures Lookup(t, k) == None
  {
    LessTotal(k, t[0].key);
    if |t| > 1 {
      LessTransitive(k, t[0].key, t[1].key);
      AbsentBelow(t[1..], k);
    }
  }

  lemma {:induction false} LookupAppend(s: seq<Entry>, t: seq<Entry>, k: bytes)
    ensures Lookup(s + t, k) == if Lookup(s, k).Some? then Lookup(s, k) else Lookup(t, k)
  {
    if s == [] {
      assert s + t == t;
    } else {
      assert (s + t)[1..] == s[1..] + t;
      LookupAppend(s[1..], t, k);
    }
  }

  /** Inserting keeps the order and never replaces a value. */
  lemma {:induction false} InsertFirstWins(t: seq<Entry>, e: Entry, k: bytes)
    requires Sorted(t)
    ensures Sorted(Insert(t, e))
    ensures Lookup(Insert(t, e), k) == Lookup(t + [e], k)
  {
    LookupAppend(t, [e], k);
    if t == [] {
    } else if e.key == t[0].key {
    } else if Less(e.key, t[0].key) {
      AbsentBelow(t, e.key);
      assert ([e] + t)[1..] == t;
    } else {
      var tail := Insert(t[1..], e);
      InsertFirstWins(t[1..], e, k);
      LookupAppend(t[1..], [e], k);
      LessTotal(e.key, t[0].key);
      assert ([t[0]] + tail)[1..] == tail;
    }
  }

  lemma SameLookups(s: seq<Entry>, t: seq<Entry>, tail: seq<Entry>, k: bytes)
    requires Lookup(s, k) == Lookup(t, k)
    ensures Lookup(s + tail, k) == Lookup(t + tail, k)
  {
    LookupAppend(s, tail, k);
    LookupAppend(t, tail, k);
  }

  lemma MoveHead(t: seq<Entry>, es: seq<Entry>)
    requires es != []
    ensures t + es == t + [es[0]] + es[1..]
  {
  }

  /** Duplicate keys resolve to their first occurrence, and the result is a std::map. */
  lemma {:induction false} InsertAllFirstWins(t: seq<Entry>, es: seq<Entry>, k: bytes)
    requires Sorted(t)
    ensures Sorted(InsertAll(t, es))
    ensures Lookup(InsertAll(t, es), k) == Lookup(t + es, k)
    decreases |es|
  {
    if es == [] {
      assert t + es == t;
    } else {
      var e, tail := es[0], es[1..];
      InsertFirstWins(t, e, k);
      InsertAllFirstWins(Insert(t, e), tail, k);
      SameLookups(Insert(t, e), t + [e], tail, k);
      MoveHead(t, es);
    }
  }

  lemma {:induction false} InsertLast(t: seq<Entry>, e: Entry)
    requires Sorted(t + [e])
    ensures Insert(t, e) == t + [e]
  {
    if t != [] {
      HeadBelowLast(t, e);
      LessTotal(t[0].key, e.key);
      assert (t + [e])[1..] == t[1..] + [e];
      InsertLast(t[1..], e);
      assert t == [t[0]] + t[1..];
    }
  }

  lemma {:induction false} HeadBelowLast(t: seq<Entry>, e: Entry)
    requires t != [] && Sorted(t + [e])
    ensures Less(t[0].key, e.key)
  {
    assert (t + [e])[1..] == t[1..] + [e];
    if |t| > 1 {
      HeadBelowLast(t[1..], e);
      LessTransitive(t[0].key, t[1].key, e.key);
    }
  }

  lemma {:induction false} SortedPrefix(s: seq<Entry>, t: seq<Entry>)
    requires Sorted(s + t)
    ensures Sorted(s)
  {
    if |s| > 1 {
      assert (s + t)[1..] == s[1..] + t;
      SortedPrefix(s[1..], t);
    }
  }

  /** Inserting entries that already come in key order just lines them up. */
  lemma {:induction false} InsertAllSorted(t: seq<Entry>, es: seq<Entry>)
    requires Sorted(t + es)
    ensures InsertAll(t, es) == t + es
    decreases |es|
  {
    if es == [] {
      assert t + es == t;
    } else {
      assert t + es == t + [es[0]] + es[1..];
      SortedPrefix(t + [es[0]], es[1..]);
      InsertLast(t, es[0]);
      InsertAllSorted(t + [es[0]], es[1..]);
    }
  }

  /** A std::map is determined by its lookups: the normal form is unique. */
  lemma {:induction false} SortedUnique(s: seq<Entry>, t: seq<Entry>)
    requires Sorted(s) && Sorted(t) && forall k: Key :: Lookup(s, k) == Lookup(t, k)
    ensures s == t
  {
    if s == [] {
      if t != [] {
        assert Lookup(t, t[0].key).Some?;
      }
    } else {
      assert Lookup(s, s[0].key).Some?;
      assert t != [];
      assert Lookup(t, t[0].key).Some?;
      SameHead(s, t);
      forall k: Key ensures Lookup(s[1..], k) == Lookup(t[1..], k) {
        if k == s[0].key {
          AbsentFromTail(s);
          AbsentFromTail(t);
        } else {
          assert Lookup(s, k) == Lookup(t, k);
        }
      }
      SortedUnique(s[1..], t[1..]);
      assert s == [s[0]] + s[1..] && t == [t[0]] + t[1..];
    }
  }

  lemma AbsentFromTail(t: seq<Entry>)
    requires t != [] && Sorted(t)
    ensures Lookup(t[1..], t[0].key) == None
  {
    if |t| > 1 {
      AbsentBelow(t[1..], t[0].key);
    }
  }

  lemma SameHead(s: seq<Entry>, t: seq<Entry>)
    requires s != [] && t != [] && Sorted(s) && Sorted(t)
    requires Lookup(s, s[0].key) == Lookup(t, s[0].key) && Lookup(s, t[0].key) == Lookup(t, t[0].key)
    ensures s[0] == t[0]
  {
    LessTotal(s[0].key, t[0].key);
    if Less(s[0].key, t[0].key) {
      AbsentBelow(t, s[0].key);
    } else if Less(t[0].key, s[0].key) {
      AbsentBelow(s, t[0].key);
    }
  }
}
