/** Masks and shifts on unsigned integers: the bit fields of bitset.h and the byte swaps of byteswap.h. */
module Bits {
  import opened Bytes

  function Pow2(k: nat): (p: nat)
    ensures p > 0
  {
    if k == 0 then 1 else 2 * Pow2(k - 1)
  }

  /** Bitwise AND and OR of unsigned integers, defined digit by digit. */
  function BitAnd(a: nat, b: nat): nat
    decreases a
  {
    if a == 0 then 0 else (if a % 2 == 1 && b % 2 == 1 then 1 else 0) + 2 * BitAnd(a / 2, b / 2)
  }

  function BitOr(a: nat, b: nat): nat
    decreases a + b
  {
    if a == 0 && b == 0 then 0
    else (if a % 2 == 1 || b % 2 == 1 then 1 else 0) + 2 * BitOr(a / 2, b / 2)
  }

  predicate Bit(n: nat, k: nat) {
    if k == 0 then n % 2 == 1 else Bit(n / 2, k - 1)
  }

  lemma {:induction false} AndBit(a: nat, b: nat, k: nat)
    ensures Bit(BitAnd(a, b), k) == (Bit(a, k) && Bit(b, k))
    decreases k
  {
    if a == 0 {
      ZeroBit(k);
    } else {
      var h := BitAnd(a / 2, b / 2);
      assert BitAnd(a, b) / 2 == h;
      if k != 0 {
        AndBit(a / 2, b / 2, k - 1);
      }
    }
  }

  lemma ZeroBit(k: nat)
    ensures !Bit(0, k)
  {
  }

  lemma {:induction false} OrBit(a: nat, b: nat, k: nat)
    ensures Bit(BitOr(a, b), k) == (Bit(a, k) || Bit(b, k))
    decreases k
  {
    if a == 0 && b == 0 {
      ZeroBit(k);
    } else {
      assert BitOr(a, b) / 2 == BitOr(a / 2, b / 2);
      if k != 0 {
        OrBit(a / 2, b / 2, k - 1);
      }
    }
  }

  lemma {:induction false} PowerBit(p: nat, k: nat)
    ensures Bit(Pow2(p), k) == (p == k)
  {
    if p == 0 {
      if k != 0 {
        ZeroBit(k - 1);
      }
    } else {
      assert Pow2(p) / 2 == Pow2(p - 1);
      if k != 0 {
        PowerBit(p - 1, k - 1);
      }
    }
  }

  lemma {:induction false} ComplementBit(w: nat, n: nat, k: nat)
    requires n < Pow2(w) && k < w
    ensures Bit(Pow2(w) - 1 - n, k) == !Bit(n, k)
  {
    var c := Pow2(w) - 1 - n;
    assert c / 2 == Pow2(w - 1) - 1 - n / 2;
    if k != 0 {
      ComplementBit(w - 1, n / 2, k - 1);
    }
  }

  lemma {:induction false} OrBound(w: nat, a: nat, b: nat)
    requires a < Pow2(w) && b < Pow2(w)
    ensures BitOr(a, b) < Pow2(w)
  {
    if w != 0 && (a != 0 || b != 0) {
      OrBound(w - 1, a / 2, b / 2);
    }
  }

  lemma {:induction false} AndBound(a: nat, b: nat)
    ensures BitAnd(a, b) <= a
  {
    if a != 0 {
      AndBound(a / 2, b / 2);
    }
  }

  lemma {:induction false} Pow2Mono(a: nat, b: nat)
    requires a <= b
    ensures Pow2(a) <= Pow2(b) && (a < b ==> Pow2(a) < Pow2(b))
  {
    if a < b {
      Pow2Mono(a, b - 1);
    }
  }

  // ---- bitset.h ----

  /** The shift and the complement are computed on an int of this many bits. */
  const INT_BITS: nat := 32

  function Complement(n: nat): (c: nat)
    requires n < Pow2(INT_BITS)
  {
    Pow2(INT_BITS) - 1 - n
  }

  /** A bit-field of `width` bits. The shift is on a 32-bit int, so positions stay below 31. */
  ghost predicate Field(width: nat, bitset: nat, position: nat) {
    width <= INT_BITS && bitset < Pow2(width) && position < width && position < INT_BITS - 1
  }

  function SetBit(width: nat, bitset: nat, val: bool, position: nat): (r: nat)
    requires Field(width, bitset, position)
    ensures r < Pow2(width)
  {
    Pow2Mono(position, width);
    Pow2Mono(position, INT_BITS);
    OrBound(width, bitset, Pow2(position));
    AndBound(bitset, Complement(Pow2(position)));
    if val then BitOr(bitset, Pow2(position)) else BitAnd(bitset, Complement(Pow2(position)))
  }

  predicate GetBit(bitset: nat, position: nat) {
    BitAnd(bitset, Pow2(position)) != 0
  }

  lemma {:induction false} GetBitIsBit(n: nat, k: nat)
    ensures GetBit(n, k) == Bit(n, k)
  {
    if n != 0 {
      if k == 0 {
        AndZero(n / 2);
      } else {
        assert Pow2(k) / 2 == Pow2(k - 1) && Pow2(k) % 2 == 0;
        GetBitIsBit(n / 2, k - 1);
      }
    } else {
      ZeroBit(k);
    }
  }

  lemma AndZero(n: nat)
    ensures BitAnd(n, 0) == 0
  {
  }

  /** Reading a position back gives what was last put there; every other position is untouched. */
  lemma GetAfterSet(width: nat, bitset: nat, val: bool, p: nat, q: nat)
    requires Field(width, bitset, p) && q < INT_BITS
    ensures GetBit(SetBit(width, bitset, val, p), q) == if p == q then val else GetBit(bitset, q)
  {
    hide BitOr, BitAnd, Bit;
    GetBitIsBit(bitset, q);
    GetBitIsBit(SetBit(width, bitset, val, p), q);
    Pow2Mono(p, INT_BITS);
    OrBit(bitset, Pow2(p), q);
    AndBit(bitset, Complement(Pow2(p)), q);
    ComplementBit(INT_BITS, Pow2(p), q);
    PowerBit(p, q);
  }

  /** One call of set_bit: a position and the value stored there. */
  datatype BitWrite = BitWrite(position: nat, val: bool)

  ghost predicate Writes(width: nat, ws: seq<BitWrite>) {
    width <= INT_BITS && forall w <- ws :: w.position < width && w.position < INT_BITS - 1
  }

  /** Folding set_bit over writes in any order, starting from zero. */
  function FoldBits(width: nat, ws: seq<BitWrite>): (r: nat)
    requires Writes(width, ws)
    ensures r < Pow2(width)
  {
    if ws == [] then 0
    else
      var init := ws[..|ws| - 1];
      var last := ws[|ws| - 1];
      SetBit(width, FoldBits(width, init), last.val, last.position)
  }

  /** The value of the last write to position q, false if there is none. */
  function LastWrite(ws: seq<BitWrite>, q: nat): bool {
    if ws == [] then false
    else if ws[|ws| - 1].position == q then ws[|ws| - 1].val
    else LastWrite(ws[..|ws| - 1], q)
  }

  lemma {:induction false} FoldRecovers(width: nat, ws: seq<BitWrite>, q: nat)
    requires Writes(width, ws) && q < INT_BITS
    ensures GetBit(FoldBits(width, ws), q) == LastWrite(ws, q)
  {
    if ws != [] {
      var last := ws[|ws| - 1];
      FoldRecovers(width, ws[..|ws| - 1], q);
      GetAfterSet(width, FoldBits(width, ws[..|ws| - 1]), last.val, last.position, q);
    }
  }

  /** With pairwise distinct positions every written bit is recovered, whatever the order of the writes. */
  lemma {:induction false} AnyOrderRecovers(width: nat, ws: seq<BitWrite>, i: nat)
    requires Writes(width, ws) && i < |ws|
    requires forall a, b :: 0 <= a < b < |ws| ==> ws[a].position != ws[b].position
    ensures GetBit(FoldBits(width, ws), ws[i].position) == ws[i].val
  {
    FoldRecovers(width, ws, ws[i].position);
    LastWriteAt(ws, i);
  }

  lemma {:induction false} LastWriteAt(ws: seq<BitWrite>, i: nat)
    requires i < |ws|
    requires forall a, b :: 0 <= a < b < |ws| ==> ws[a].position != ws[b].position
    ensures LastWrite(ws, ws[i].position) == ws[i].val
  {
    if i < |ws| - 1 {
      LastWriteAt(ws[..|ws| - 1], i);
    }
  }

  // ---- byteswap.h ----

  function Shl(v: nat, k: nat): nat {
    if k == 0 then v else 2 * Shl(v, k - 1)
  }

  function Shr(v: nat, k: nat): nat {
    if k == 0 then v else Shr(v / 2, k - 1)
  }

  /** v under the mask that keeps byte k: 0xFF, 0xFF00, 0xFF0000 and so on. */
  function MaskByte(v: nat, k: nat): nat { BitAnd(Shl(0xFF, 8 * k), v) }

  /** Byte i of an n-byte integer, masked out and shifted to its mirrored place. */
  function SwapTerm(v: nat, n: nat, i: nat): nat
    requires i < n
  {
    if n - 1 - i >= i then Shl(MaskByte(v, i), 8 * (n - 1 - i - i))
    else Shr(MaskByte(v, i), 8 * (i - (n - 1 - i)))
  }

  /** The OR of the terms of bytes i and up. */
  function SwapFrom(v: nat, n: nat, i: nat): nat
    requires i < n
    decreases n - i
  {
    if i == n - 1 then SwapTerm(v, n, i) else BitOr(SwapTerm(v, n, i), SwapFrom(v, n, i + 1))
  }

  function Swap16(v: uint16): nat { SwapFrom(v, 2, 0) }
  function Swap32(v: uint32): nat { SwapFrom(v, 4, 0) }
  function Swap64(v: uint64): nat { SwapFrom(v, 8, 0) }

  /** The k-th base-256 digit of v. */
  function Digit(v: nat, k: nat): (d: nat)
    ensures d < 256
  {
    if k == 0 then v % 256 else Digit(v / 256, k - 1)
  }

  /** The w low-order bits of v. */
  function Low(v: nat, w: nat): nat {
    if w == 0 then 0 else v % 2 + 2 * Low(v / 2, w - 1)
  }

  lemma LowTwo(v: nat, w: nat)
    ensures Low(v, w + 2) == v % 4 + 4 * Low(v / 4, w)
  {
    assert Low(v, w + 2) == v % 2 + 2 * Low(v / 2, w + 1);
  }

  lemma LowByte(v: nat)
    ensures Low(v, 8) == v % 256
  {
    hide Low;
    var a := v / 4;
    var b := a / 4;
    var c := b / 4;
    LowTwo(v, 6);
    LowTwo(a, 4);
    LowTwo(b, 2);
    LowTwo(c, 0);
    LowNone(c / 4);
    ModUnique(v, 256, c / 4, v % 4 + 4 * (a % 4) + 16 * (b % 4) + 64 * (c % 4));
  }

  lemma LowNone(v: nat)
    ensures Low(v, 0) == 0
  {
  }

  lemma {:induction false} AndLow(w: nat, v: nat)
    ensures BitAnd(Pow2(w) - 1, v) == Low(v, w)
  {
    if w != 0 {
      AndLow(w - 1, v / 2);
      AndOdd(Pow2(w - 1) - 1, v);
      hide BitAnd;
    }
  }

  lemma AndOdd(h: nat, v: nat)
    ensures BitAnd(2 * h + 1, v) == v % 2 + 2 * BitAnd(h, v / 2)
  {
  }

  lemma AndEven(a: nat, v: nat)
    ensures BitAnd(2 * a, v) == 2 * BitAnd(a, v / 2)
  {
  }

  lemma {:induction false} AndShift(s: nat, a: nat, v: nat)
    ensures BitAnd(Shl(a, s), v) == Shl(BitAnd(a, Shr(v, s)), s)
  {
    if s != 0 {
      AndEven(Shl(a, s - 1), v);
      AndShift(s - 1, a, v / 2);
    }
  }

  lemma {:induction false} ShlAdd(v: nat, i: nat, j: nat)
    ensures Shl(Shl(v, i), j) == Shl(v, i + j)
  {
    if j != 0 {
      ShlAdd(v, i, j - 1);
    }
  }

  lemma {:induction false} ShrAdd(v: nat, i: nat, j: nat)
    ensures Shr(Shr(v, i), j) == Shr(v, i + j)
  {
    if i != 0 {
      ShrAdd(v / 2, i - 1, j);
    }
  }

  lemma {:induction false} ShrShl(v: nat, i: nat, j: nat)
    requires j <= i
    ensures Shr(Shl(v, i), j) == Shl(v, i - j)
  {
    if j != 0 {
      assert Shl(v, i) / 2 == Shl(v, i - 1);
      ShrShl(v, i - 1, j - 1);
    }
  }

  lemma ShrByte(v: nat)
    ensures Shr(v, 8) == v / 256
  {
    hide Shr;
    ShrNone(v / 256);
    var a := v / 4;
    var b := a / 4;
    ShrTwo(v, 6);
    ShrTwo(a, 4);
    ShrTwo(b, 2);
    ShrTwo(b / 4, 0);
  }

  lemma ShrNone(v: nat)
    ensures Shr(v, 0) == v
  {
  }

  lemma ShrTwo(v: nat, k: nat)
    ensures Shr(v, k + 2) == Shr(v / 4, k)
  {
    assert Shr(v, k + 2) == Shr(v / 2, k + 1);
  }

  lemma {:induction false} DigitIsShift(v: nat, k: nat)
    ensures Digit(v, k) == Shr(v, 8 * k) % 256
  {
    if k != 0 {
      ShrByte(v);
      ShrAdd(v, 8, 8 * (k - 1));
      DigitIsShift(v / 256, k - 1);
    }
  }

  lemma MaskLow(v: nat)
    ensures BitAnd(0xFF, v) == v % 256
  {
    Pow2Bytes(1);
    AndLow(8, v);
    LowByte(v);
    hide BitAnd, Low;
  }

  /** The mask of byte k selects digit k, in place. */
  lemma MaskDigit(v: nat, k: nat)
    ensures MaskByte(v, k) == Shl(Digit(v, k), 8 * k)
  {
    AndShift(8 * k, 0xFF, v);
    MaskLow(Shr(v, 8 * k));
    DigitIsShift(v, k);
  }

  lemma {:induction false} Pow2Bytes(k: nat)
    ensures Pow2(8 * k) == Pow256(k)
  {
    if k != 0 {
      Pow2Bytes(k - 1);
      var j := 8 * (k - 1);
      assert Pow2(j + 2) == 4 * Pow2(j);
      assert Pow2(j + 4) == 4 * Pow2(j + 2);
      assert Pow2(j + 6) == 4 * Pow2(j + 4);
    }
  }

  /** OR is addition when the operands share no bit. */
  lemma {:induction false} OrDisjoint(a: nat, s: nat, b: nat)
    requires b < Pow2(s)
    ensures BitOr(Shl(a, s), b) == Shl(a, s) + b
  {
    if s == 0 {
      OrZero(a);
    } else {
      OrDisjoint(a, s - 1, b / 2);
    }
  }

  lemma OrZero(a: nat)
    ensures BitOr(a, 0) == a
  {
  }

  lemma {:induction false} BEDigit(v: nat, k: nat, i: nat)
    requires i < k
    ensures BE(v, k)[k - 1 - i] == Digit(v, i)
  {
    if i != 0 {
      BEDigit(v / 256, k - 1, i - 1);
    }
  }

  lemma ShlTwo(x: nat, k: nat)
    ensures Shl(x, k + 2) == 4 * Shl(x, k)
  {
    assert Shl(x, k + 1) == 2 * Shl(x, k);
  }

  lemma {:induction false} ShlScaled(x: nat, k: nat)
    ensures Shl(x, 8 + k) == 256 * Shl(x, k)
  {
    if k == 0 {
      ShlTwo(x, 0);
      ShlTwo(x, 2);
      ShlTwo(x, 4);
      ShlTwo(x, 6);
    } else {
      ShlScaled(x, k - 1);
    }
  }

  lemma {:induction false} FromLEAppend(xs: bytes, x: byte)
    ensures FromLE(xs + [x]) == FromLE(xs) + Shl(x, 8 * |xs|)
  {
    if xs == [] {
      assert ([] + [x])[1..] == [];
    } else {
      FromLEAppend(xs[1..], x);
      assert (xs + [x])[1..] == xs[1..] + [x];
      ShlScaled(x, 8 * (|xs| - 1));
    }
  }

  /** The OR of the mirrored bytes is the integer stored, low byte first, by the big-endian bytes. */
  lemma {:induction false} SwapFromBytes(v: nat, n: nat, i: nat)
    requires i < n
    ensures SwapFrom(v, n, i) == FromLE(BE(v, n)[..n - i])
    decreases n - i
  {
    var t := n - 1 - i;
    var xs := BE(v, n)[..t];
    var d := Digit(v, i);
    BEDigit(v, n, i);
    assert BE(v, n)[..n - i] == xs + [d];
    FromLEAppend(xs, d);
    TermIsDigit(v, n, i);
    if t == 0 {
      assert FromLE(xs) == 0;
    } else {
      SwapFromBytes(v, n, i + 1);
      LEOfFromLE(xs);
      Pow2Bytes(t);
      OrDisjoint(d, 8 * t, FromLE(xs));
    }
  }

  lemma TermIsDigit(v: nat, n: nat, i: nat)
    requires i < n
    ensures SwapTerm(v, n, i) == Shl(Digit(v, i), 8 * (n - 1 - i))
  {
    MaskDigit(v, i);
    if n - 1 - i >= i {
      ShlAdd(Digit(v, i), 8 * i, 8 * (n - 1 - i - i));
    } else {
      ShrShl(Digit(v, i), 8 * i, 8 * (i - (n - 1 - i)));
    }
  }

  /** Swapping and then storing least significant byte first lays down the big-endian bytes. */
  lemma SwapIsBigEndian(v: nat, n: nat)
    requires n > 0
    ensures SwapFrom(v, n, 0) < Pow256(n) && LE(SwapFrom(v, n, 0), n) == BE(v, n)
  {
    SwapFromBytes(v, n, 0);
    assert BE(v, n)[..n] == BE(v, n);
    LEOfFromLE(BE(v, n));
  }

  lemma {:induction false} BEReversesLE(n: nat, k: nat, i: nat)
    requires i < k
    ensures BE(n, k)[k - 1 - i] == LE(n, k)[i]
  {
    if i != 0 {
      BEReversesLE(n / 256, k - 1, i - 1);
    }
  }

  lemma SwapTwice(v: nat, n: nat)
    requires n > 0 && v < Pow256(n)
    ensures SwapFrom(SwapFrom(v, n, 0), n, 0) == v
  {
    var s := SwapFrom(v, n, 0);
    var t := SwapFrom(s, n, 0);
    SwapIsBigEndian(v, n);
    SwapIsBigEndian(s, n);
    forall i: nat | i < n ensures LE(t, n)[i] == LE(v, n)[i] {
      BEReversesLE(s, n, n - 1 - i);
      BEReversesLE(v, n, i);
    }
    assert LE(t, n) == LE(v, n);
    FromLEOfLE(t, n);
    FromLEOfLE(v, n);
    ModUnique(v, Pow256(n), 0, v);
    ModUnique(t, Pow256(n), 0, t);
  }

  lemma SwapInvolution16(v: uint16)
    ensures Swap16(v) < TWO16 && Swap16(Swap16(v)) == v
  {
    Pow256Values();
    SwapIsBigEndian(v, 2);
    SwapTwice(v, 2);
  }

  lemma SwapInvolution32(v: uint32)
    ensures Swap32(v) < TWO32 && Swap32(Swap32(v)) == v
  {
    Pow256Values();
    SwapIsBigEndian(v, 4);
    SwapTwice(v, 4);
  }

  lemma SwapInvolution64(v: uint64)
    ensures Swap64(v) < TWO64 && Swap64(Swap64(v)) == v
  {
    Pow256Values();
    SwapIsBigEndian(v, 8);
    SwapTwice(v, 8);
  }
}
