/** The input and output streams the codecs work on. */
module Streams {
  import opened Bytes

  datatype Option<+T> = None | Some(value: T)

  /** std::ostream over a growing buffer. */
  class OStream {
    var data: bytes

    constructor ()
      ensures data == []
    {
      data := [];
    }

    method Write(bs: bytes)
      modifies this
      ensures data == old(data) + bs
    {
      data := data + bs;
    }
  }

  /** std::istream over a fixed byte string, with its two error bits. */
  class IStream {
    const data: bytes
    var pos: nat
    var eofbit: bool
    var failbit: bool

    constructor (bs: bytes)
      ensures Valid() && Good() && Rest() == bs
    {
      data := bs;
      pos := 0;
      eofbit, failbit := false, false;
    }

    ghost predicate Valid()
      reads this
    {
      pos <= |data|
    }

    predicate Good()
      reads this
    {
      !eofbit && !failbit
    }

    /** What a reader can still get; a stream with an error bit set yields nothing. */
    ghost function Rest(): bytes
      reads this
      requires Valid()
    {
      if Good() then data[pos..] else []
    }

    /** The outcome r of a reader (None is a thrown exception) and the stream it leaves agree with `spec`. */
    ghost predicate Agrees<T>(spec: Parsed<T>, r: Option<T>)
      reads this
    {
      && Valid()
      && match r
         case Some(v) => Good() && spec == Ok(v, Rest())
         case None => spec.Err?
    }

    /** istream::read followed by good(): short input sets both bits. */
    method Read(n: nat) returns (ok: bool, bs: bytes)
      requires Valid()
      modifies this
      ensures Valid() && ok == Good()
      ensures ok <==> old(Good()) && n <= |old(Rest())|
      ensures ok ==> |bs| == n && old(Rest()) == bs + Rest()
    {
      bs := [];
      if !Good() {
        failbit := true;
        return false, bs;
      }
      if n <= |data| - pos {
        bs := data[pos..pos + n];
        pos := pos + n;
        ok := true;
      } else {
        pos := |data|;
        eofbit, failbit := true, true;
        ok := false;
      }
    }

    /** peek() compared with end-of-file: looking past the last byte sets eofbit. */
    method AtEnd() returns (end: bool)
      requires Valid() && Good()
      modifies this
      ensures Valid() && end == (old(Rest()) == [])
      ensures !end ==> Good() && Rest() == old(Rest())
    {
      end := pos == |data|;
      if end {
        eofbit := true;
      }
    }
  }
}
