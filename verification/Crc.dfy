/** The checksum of mkpimage.c: a table-driven CRC equals division by the generator
    polynomial, one message bit at a time. */
module Crc {

  // ----- division of bits in a shift register -----

  /** A polynomial over the two-element field: the exponents of its terms. */
  type Poly = set<nat>

  function Plus(a: Poly, b: Poly): Poly {
    (a - b) + (b - a)
  }

  /** The generator polynomial of section 3.2.9 of IEEE 802.3 without x^32, which
      is equal to the sum of these terms modulo the polynomial. */
  const GENERATOR: Poly := {26, 23, 22, 16, 12, 11, 10, 8, 7, 5, 4, 2, 1, 0}

  predicate Top(p: Poly) {
    31 in p
  }

  /** Multiplication by x, the term x^32 dropped. */
  function Times(p: Poly): Poly {
    set e | e in p && e < 31 :: e + 1
  }

  /** One step of the division: the register moves up, and the generator is
      subtracted if what falls out differs from the message bit. */
  function Shift(reg: Poly, bit: bool): Poly {
    if Top(reg) != bit then Plus(Times(reg), GENERATOR) else Times(reg)
  }

  /** The register after the bits went in, in the order of their sending. */
  function Divide(reg: Poly, bits: seq<bool>): Poly
    decreases |bits|
  {
    if bits == [] then reg else Divide(Shift(reg, bits[0]), bits[1..])
  }

  lemma {:induction false} DivideAppend(reg: Poly, a: seq<bool>, b: seq<bool>)
    ensures Divide(reg, a + b) == Divide(Divide(reg, a), b)
    decreases |a|
  {
    if a == [] {
      assert a + b == b;
    } else {
      assert (a + b)[1..] == a[1..] + b;
      DivideAppend(Shift(reg, a[0]), a[1..], b);
    }
  }

  /** The register after `n` zero bits. */
  function Zeros(reg: Poly, n: nat): Poly
    decreases n
  {
    if n == 0 then reg else Zeros(Shift(reg, false), n - 1)
  }

  function TopBits(p: Poly, n: nat): seq<bool>
    decreases n
  {
    if n == 0 then [] else [Top(p)] + TopBits(Times(p), n - 1)
  }

  function Moved(p: Poly, n: nat): Poly
    decreases n
  {
    if n == 0 then p else Moved(Times(p), n - 1)
  }

  lemma SumOf(a: Poly, b: Poly, c: Poly)
    requires forall e :: e in c <==> (e in a) != (e in b)
    ensures c == Plus(a, b)
  {
  }

  lemma TimesPlus(a: Poly, b: Poly)
    ensures Times(Plus(a, b)) == Plus(Times(a), Times(b))
  {
  }

  lemma PlusExchange(a: Poly, b: Poly, c: Poly)
    ensures Plus(Plus(a, c), Plus(b, c)) == Plus(a, b)
    ensures Plus(Plus(a, b), c) == Plus(Plus(a, c), b) == Plus(a, Plus(b, c))
  {
  }

  /** Division is linear, and a bit may be added at the top of the register
      instead of being sent. */
  lemma ShiftPlus(a: Poly, b: Poly)
    ensures Shift(Plus(a, b), false) == Plus(Shift(a, false), Shift(b, false))
    ensures Shift(Plus(a, b), false) == Plus(Shift(a, Top(b)), Times(b))
  {
    TimesPlus(a, b);
    PlusExchange(Times(a), Times(b), GENERATOR);
  }

  lemma {:induction false} ZerosPlus(a: Poly, b: Poly, n: nat)
    ensures Zeros(Plus(a, b), n) == Plus(Zeros(a, n), Zeros(b, n))
    decreases n
  {
    if n > 0 {
      ShiftPlus(a, b);
      ZerosPlus(Shift(a, false), Shift(b, false), n - 1);
    }
  }

  /** All bits of a word may be added to the register beforehand. */
  lemma {:induction false} DivideWord(reg: Poly, w: Poly, n: nat)
    ensures Plus(Divide(reg, TopBits(w, n)), Moved(w, n)) == Zeros(Plus(reg, w), n)
    decreases n
  {
    if n > 0 {
      ShiftPlus(reg, w);
      assert TopBits(w, n)[0] == Top(w) && TopBits(w, n)[1..] == TopBits(Times(w), n - 1);
      DivideWord(Shift(reg, Top(w)), Times(w), n - 1);
    }
  }

  /** A polynomial without the low terms is moved out completely. */
  lemma {:induction false} MovedAway(w: Poly, n: nat)
    requires n > 0 && forall e | e in w :: e + n >= 32
    ensures Moved(w, n) == {}
    decreases n
  {
    if n == 1 {
      assert Times(w) == {};
    } else {
      MovedAway(Times(w), n - 1);
    }
  }

  /** A polynomial without the top terms is only moved. */
  lemma {:induction false} LowZeros(p: Poly, n: nat)
    requires forall e | e in p :: e + n < 32
    ensures Zeros(p, n) == Moved(p, n)
    decreases n
  {
    if n > 0 {
      LowZeros(Times(p), n - 1);
    }
  }

  // ----- bits of a word of any kind, counted from the top -----

  predicate BitFromTop<W(!new)>(top: W -> bool, next: W -> W, w: W, k: nat)
    decreases k
  {
    if k == 0 then top(w) else BitFromTop(top, next, next(w), k - 1)
  }

  /** Moving up respects sums. */
  ghost predicate Linear<W(!new)>(xor: (W, W) -> W, next: W -> W) {
    forall a, b {:trigger xor(a, b)} :: next(xor(a, b)) == xor(next(a), next(b))
  }

  /** So does the top bit. */
  ghost predicate Additive<W(!new)>(xor: (W, W) -> W, top: W -> bool) {
    forall a, b {:trigger xor(a, b)} :: top(xor(a, b)) == (top(a) != top(b))
  }

  lemma {:induction false} BitXor<W(!new)>(xor: (W, W) -> W, top: W -> bool, next: W -> W, a: W, b: W, k: nat)
    requires Linear(xor, next) && Additive(xor, top)
    ensures BitFromTop(top, next, xor(a, b), k) == (BitFromTop(top, next, a, k) != BitFromTop(top, next, b, k))
    decreases k
  {
    if k > 0 {
      BitXor(xor, top, next, next(a), next(b), k - 1);
    }
  }

  function Nexts<W>(next: W -> W, w: W, n: nat): W
    decreases n
  {
    if n == 0 then w else Nexts(next, next(w), n - 1)
  }

  lemma {:induction false} SkipBits<W(!new)>(top: W -> bool, next: W -> W, w: W, n: nat, k: nat)
    ensures BitFromTop(top, next, w, n + k) == BitFromTop(top, next, Nexts(next, w, n), k)
    decreases n
  {
    if n > 0 {
      SkipBits(top, next, next(w), n - 1, k);
    }
  }

  lemma {:induction false} NoBits<W(!new)>(top: W -> bool, next: W -> W, w: W, k: nat)
    requires next(w) == w && !top(w)
    ensures !BitFromTop(top, next, w, k)
    decreases k
  {
    if k > 0 {
      NoBits(top, next, w, k - 1);
    }
  }

  lemma EightNexts<W>(next: W -> W, w: W)
    ensures Nexts(next, w, 8) == next(next(next(next(next(next(next(next(w))))))))
  {
    var w2, w4, w6 := next(next(w)), next(next(next(next(w)))), next(next(next(next(next(next(w))))));
    assert Nexts(next, w, 8) == Nexts(next, next(w), 7) == Nexts(next, w2, 6);
    assert Nexts(next, w2, 6) == Nexts(next, next(w2), 5) == Nexts(next, w4, 4);
    assert Nexts(next, w4, 4) == Nexts(next, next(w4), 3) == Nexts(next, w6, 2);
    assert Nexts(next, w6, 2) == Nexts(next, next(w6), 1) == next(next(w6));
  }

  // ----- machine words as polynomials -----

  predicate TopBit(w: bv32) {
    w & 0x80000000 != 0
  }

  function Next(w: bv32): bv32 {
    w << 1
  }

  function Xor(a: bv32, b: bv32): bv32 {
    a ^ b
  }

  /** The first bit of a word stands for x^31, the last one for 1. */
  function PolyOf(w: bv32): Poly {
    set e: nat {:trigger Exponent(e)} | e < 32 && Exponent(e) && BitFromTop(TopBit, Next, w, 31 - e)
  }

  predicate Exponent(e: nat) {
    true
  }

  lemma InPoly(w: bv32, e: nat)
    ensures e in PolyOf(w) <==> e < 32 && BitFromTop(TopBit, Next, w, 31 - e)
  {
    assert Exponent(e);
  }

  lemma NextXor(a: bv32, b: bv32)
    ensures Next(Xor(a, b)) == Xor(Next(a), Next(b))
  {
  }

  lemma TopXor(a: bv32, b: bv32)
    ensures TopBit(Xor(a, b)) == (TopBit(a) != TopBit(b))
  {
  }

  lemma NextIsLinear()
    ensures Linear(Xor, Next)
  {
    forall a, b
      ensures Next(Xor(a, b)) == Xor(Next(a), Next(b))
    {
      NextXor(a, b);
    }
  }

  lemma TopIsAdditive()
    ensures Additive(Xor, TopBit)
  {
    forall a, b
      ensures TopBit(Xor(a, b)) == (TopBit(a) != TopBit(b))
    {
      TopXor(a, b);
    }
  }

  lemma WordBitXor(a: bv32, b: bv32, c: bv32, k: nat)
    requires c == Xor(a, b)
    ensures BitFromTop(TopBit, Next, c, k) == (BitFromTop(TopBit, Next, a, k) != BitFromTop(TopBit, Next, b, k))
  {
    NextIsLinear();
    TopIsAdditive();
    BitXor(Xor, TopBit, Next, a, b, k);
  }

  lemma InXor(a: bv32, b: bv32, c: bv32, e: nat)
    requires c == Xor(a, b)
    ensures e in PolyOf(c) <==> (e in PolyOf(a)) != (e in PolyOf(b))
  {
    InPoly(c, e);
    InPoly(a, e);
    InPoly(b, e);
    if e < 32 {
      WordBitXor(a, b, c, 31 - e);
    }
  }

  lemma PolyXor(a: bv32, b: bv32, c: bv32)
    requires c == Xor(a, b)
    ensures PolyOf(c) == Plus(PolyOf(a), PolyOf(b))
  {
    forall e: nat
      ensures e in PolyOf(c) <==> (e in PolyOf(a)) != (e in PolyOf(b))
    {
      InXor(a, b, c, e);
    }
    SumOf(PolyOf(a), PolyOf(b), PolyOf(c));
  }

  lemma Next8(w: bv32)
    ensures Next(Next(Next(Next(Next(Next(Next(Next(w)))))))) == w << 8
  {
  }

  lemma Nexts8(w: bv32)
    ensures Nexts(Next, w, 8) == w << 8
  {
    EightNexts(Next, w);
    Next8(w);
  }

  lemma NothingThere(w: bv32, k: nat)
    requires w == 0
    ensures !BitFromTop(TopBit, Next, w, k)
  {
    NoBits(TopBit, Next, w, k);
  }

  lemma PastTheEnd(w: bv32, w1: bv32, w2: bv32, w3: bv32, w4: bv32)
    requires w1 == w << 8 && w2 == w1 << 8 && w3 == w2 << 8 && w4 == w3 << 8
    ensures w4 == 0
  {
  }

  lemma NoBit32(w: bv32)
    ensures !BitFromTop(TopBit, Next, w, 32)
  {
    var w1 := Nexts(Next, w, 8);
    var w2 := Nexts(Next, w1, 8);
    var w3 := Nexts(Next, w2, 8);
    var w4 := Nexts(Next, w3, 8);
    SkipBits(TopBit, Next, w, 8, 24);
    SkipBits(TopBit, Next, w1, 8, 16);
    SkipBits(TopBit, Next, w2, 8, 8);
    SkipBits(TopBit, Next, w3, 8, 0);
    Nexts8(w);
    Nexts8(w1);
    Nexts8(w2);
    Nexts8(w3);
    PastTheEnd(w, w1, w2, w3, w4);
    NothingThere(w4, 0);
  }

  lemma PolyUp(w: bv32)
    ensures PolyOf(Next(w)) == Times(PolyOf(w))
  {
    forall e: nat
      ensures e in PolyOf(Next(w)) <==> e in Times(PolyOf(w))
    {
      InPoly(Next(w), e);
      if 0 < e < 32 {
        InPoly(w, e - 1);
        assert 31 - (e - 1) == 31 - e + 1;
      } else if e == 0 {
        NoBit32(w);
      }
    }
  }

  // ----- the table -----

  const POLYNOMIAL: bv32 := 0x04c11db7

  lemma EightUnfolded<W(!new)>(top: W -> bool, next: W -> W, w: W)
    ensures BitFromTop(top, next, w, 0) == top(w) && BitFromTop(top, next, w, 1) == top(next(w))
    ensures BitFromTop(top, next, w, 2) == top(next(next(w))) && BitFromTop(top, next, w, 3) == top(next(next(next(w))))
    ensures BitFromTop(top, next, w, 4) == top(next(next(next(next(w)))))
    ensures BitFromTop(top, next, w, 5) == top(next(next(next(next(next(w))))))
    ensures BitFromTop(top, next, w, 6) == top(next(next(next(next(next(next(w)))))))
    ensures BitFromTop(top, next, w, 7) == top(next(next(next(next(next(next(next(w))))))))
  {
  }

  lemma TopsOfNexts(w: bv32)
    ensures TopBit(Next(w)) == (w & 0x40000000 != 0)
    ensures TopBit(Next(Next(w))) == (w & 0x20000000 != 0)
    ensures TopBit(Next(Next(Next(w)))) == (w & 0x10000000 != 0)
    ensures TopBit(Next(Next(Next(Next(w))))) == (w & 0x08000000 != 0)
    ensures TopBit(Next(Next(Next(Next(Next(w)))))) == (w & 0x04000000 != 0)
    ensures TopBit(Next(Next(Next(Next(Next(Next(w))))))) == (w & 0x02000000 != 0)
    ensures TopBit(Next(Next(Next(Next(Next(Next(Next(w)))))))) == (w & 0x01000000 != 0)
  {
  }

  /** The first eight bits of a word. */
  lemma EightBits(w: bv32)
    ensures BitFromTop(TopBit, Next, w, 0) == (w & 0x80000000 != 0)
            && BitFromTop(TopBit, Next, w, 1) == (w & 0x40000000 != 0)
    ensures BitFromTop(TopBit, Next, w, 2) == (w & 0x20000000 != 0)
            && BitFromTop(TopBit, Next, w, 3) == (w & 0x10000000 != 0)
    ensures BitFromTop(TopBit, Next, w, 4) == (w & 0x08000000 != 0)
            && BitFromTop(TopBit, Next, w, 5) == (w & 0x04000000 != 0)
    ensures BitFromTop(TopBit, Next, w, 6) == (w & 0x02000000 != 0)
            && BitFromTop(TopBit, Next, w, 7) == (w & 0x01000000 != 0)
  {
    EightUnfolded(TopBit, Next, w);
    TopsOfNexts(w);
  }

  lemma NextEight(w: bv32, u: bv32, k: nat)
    requires u == w << 8
    ensures BitFromTop(TopBit, Next, w, 8 + k) == BitFromTop(TopBit, Next, u, k)
  {
    SkipBits(TopBit, Next, w, 8, k);
    Nexts8(w);
  }

  /** The bytes of the generator, the first one first. */
  lemma GeneratorByte0(k: nat)
    requires k < 8
    ensures BitFromTop(TopBit, Next, 0x04c11db7, k) == (k == 5)
  {
    EightBits(0x04c11db7);
  }

  lemma GeneratorByte1(k: nat)
    requires k < 8
    ensures BitFromTop(TopBit, Next, 0xc11db700, k) == (k == 0 || k == 1 || k == 7)
  {
    EightBits(0xc11db700);
  }

  lemma GeneratorByte2(k: nat)
    requires k < 8
    ensures BitFromTop(TopBit, Next, 0x1db70000, k) == (k == 3 || k == 4 || k == 5 || k == 7)
  {
    EightBits(0x1db70000);
  }

  lemma GeneratorByte3(k: nat)
    requires k < 8
    ensures BitFromTop(TopBit, Next, 0xb7000000, k) == (k != 1 && k != 4)
  {
    EightBits(0xb7000000);
  }

  lemma GeneratorBit(k: nat)
    requires k < 32
    ensures BitFromTop(TopBit, Next, POLYNOMIAL, k) == (31 - k in GENERATOR)
  {
    if k < 8 {
      GeneratorByte0(k);
    } else {
      NextEight(0x04c11db7, 0xc11db700, k - 8);
      if k < 16 {
        GeneratorByte1(k - 8);
      } else {
        NextEight(0xc11db700, 0x1db70000, k - 16);
        if k < 24 {
          GeneratorByte2(k - 16);
        } else {
          NextEight(0x1db70000, 0xb7000000, k - 24);
          GeneratorByte3(k - 24);
        }
      }
    }
  }

  lemma PolyOfGenerator()
    ensures PolyOf(POLYNOMIAL) == GENERATOR
  {
    forall e: nat
      ensures e in PolyOf(POLYNOMIAL) <==> e in GENERATOR
    {
      InPoly(POLYNOMIAL, e);
      if e < 32 {
        GeneratorBit(31 - e);
      }
    }
  }

  function Zero(w: bv32): bv32 {
    if TopBit(w) then (w << 1) ^ POLYNOMIAL else w << 1
  }

  lemma ZeroFalls(w: bv32)
    requires TopBit(w)
    ensures Zero(w) == Xor(Next(w), POLYNOMIAL)
  {
  }

  lemma ZeroKeeps(w: bv32)
    requires !TopBit(w)
    ensures Zero(w) == Next(w)
  {
  }

  lemma ZeroIsShift(w: bv32)
    ensures PolyOf(Zero(w)) == Shift(PolyOf(w), false)
  {
    InPoly(w, 31);
    PolyUp(w);
    if TopBit(w) {
      ZeroFalls(w);
      PolyXor(Next(w), POLYNOMIAL, Zero(w));
      PolyOfGenerator();
    } else {
      ZeroKeeps(w);
    }
  }

  function Zeros8(w: bv32): bv32 {
    Zero(Zero(Zero(Zero(Zero(Zero(Zero(Zero(w))))))))
  }

  lemma EightMoves(w: bv32)
    ensures Moved(PolyOf(w), 8) == PolyOf(w << 8)
  {
    TwoMoves(w, 6);
    TwoMoves(Next(Next(w)), 4);
    TwoMoves(Next(Next(Next(Next(w)))), 2);
    TwoMoves(Next(Next(Next(Next(Next(Next(w)))))), 0);
    Next8(w);
  }

  lemma TwoMoves(w: bv32, n: nat)
    ensures Moved(PolyOf(w), n + 2) == Moved(PolyOf(Next(Next(w))), n)
  {
    PolyUp(w);
    PolyUp(Next(w));
    assert Moved(PolyOf(w), n + 2) == Moved(PolyOf(Next(w)), n + 1);
  }

  lemma TwoZeros(w: bv32, n: nat)
    ensures Zeros(PolyOf(w), n + 2) == Zeros(PolyOf(Zero(Zero(w))), n)
  {
    ZeroIsShift(w);
    ZeroIsShift(Zero(w));
    assert Zeros(PolyOf(w), n + 2) == Zeros(PolyOf(Zero(w)), n + 1);
  }

  lemma EightZeros(w: bv32)
    ensures Zeros(PolyOf(w), 8) == PolyOf(Zeros8(w))
  {
    TwoZeros(w, 6);
    TwoZeros(Zero(Zero(w)), 4);
    TwoZeros(Zero(Zero(Zero(Zero(w)))), 2);
    TwoZeros(Zero(Zero(Zero(Zero(Zero(Zero(w)))))), 0);
  }

  function Row0(k: bv8): bv32 {
    if k == 0 then 0x00000000 else if k == 1 then 0x04c11db7 else
    if k == 2 then 0x09823b6e else if k == 3 then 0x0d4326d9 else
    if k == 4 then 0x130476dc else if k == 5 then 0x17c56b6b else
    if k == 6 then 0x1a864db2 else if k == 7 then 0x1e475005 else
    if k == 8 then 0x2608edb8 else if k == 9 then 0x22c9f00f else
    if k == 10 then 0x2f8ad6d6 else if k == 11 then 0x2b4bcb61 else
    if k == 12 then 0x350c9b64 else if k == 13 then 0x31cd86d3 else if k == 14 then 0x3c8ea00a else 0x384fbdbd
  }

  function Row1(k: bv8): bv32 {
    if k == 0 then 0x4c11db70 else if k == 1 then 0x48d0c6c7 else
    if k == 2 then 0x4593e01e else if k == 3 then 0x4152fda9 else
    if k == 4 then 0x5f15adac else if k == 5 then 0x5bd4b01b else
    if k == 6 then 0x569796c2 else if k == 7 then 0x52568b75 else
    if k == 8 then 0x6a1936c8 else if k == 9 then 0x6ed82b7f else
    if k == 10 then 0x639b0da6 else if k == 11 then 0x675a1011 else
    if k == 12 then 0x791d4014 else if k == 13 then 0x7ddc5da3 else if k == 14 then 0x709f7b7a else 0x745e66cd
  }

  function Row2(k: bv8): bv32 {
    if k == 0 then 0x9823b6e0 else if k == 1 then 0x9ce2ab57 else
    if k == 2 then 0x91a18d8e else if k == 3 then 0x95609039 else
    if k == 4 then 0x8b27c03c else if k == 5 then 0x8fe6dd8b else
    if k == 6 then 0x82a5fb52 else if k == 7 then 0x8664e6e5 else
    if k == 8 then 0xbe2b5b58 else if k == 9 then 0xbaea46ef else
    if k == 10 then 0xb7a96036 else if k == 11 then 0xb3687d81 else
    if k == 12 then 0xad2f2d84 else if k == 13 then 0xa9ee3033 else if k == 14 then 0xa4ad16ea else 0xa06c0b5d
  }

  function Row3(k: bv8): bv32 {
    if k == 0 then 0xd4326d90 else if k == 1 then 0xd0f37027 else
    if k == 2 then 0xddb056fe else if k == 3 then 0xd9714b49 else
    if k == 4 then 0xc7361b4c else if k == 5 then 0xc3f706fb else
    if k == 6 then 0xceb42022 else if k == 7 then 0xca753d95 else
    if k == 8 then 0xf23a8028 else if k == 9 then 0xf6fb9d9f else
    if k == 10 then 0xfbb8bb46 else if k == 11 then 0xff79a6f1 else
    if k == 12 then 0xe13ef6f4 else if k == 13 then 0xe5ffeb43 else if k == 14 then 0xe8bccd9a else 0xec7dd02d
  }

  function Row4(k: bv8): bv32 {
    if k == 0 then 0x34867077 else if k == 1 then 0x30476dc0 else
    if k == 2 then 0x3d044b19 else if k == 3 then 0x39c556ae else
    if k == 4 then 0x278206ab else if k == 5 then 0x23431b1c else
    if k == 6 then 0x2e003dc5 else if k == 7 then 0x2ac12072 else
    if k == 8 then 0x128e9dcf else if k == 9 then 0x164f8078 else
    if k == 10 then 0x1b0ca6a1 else if k == 11 then 0x1fcdbb16 else
    if k == 12 then 0x018aeb13 else if k == 13 then 0x054bf6a4 else if k == 14 then 0x0808d07d else 0x0cc9cdca
  }

  function Row5(k: bv8): bv32 {
    if k == 0 then 0x7897ab07 else if k == 1 then 0x7c56b6b0 else
    if k == 2 then 0x71159069 else if k == 3 then 0x75d48dde else
    if k == 4 then 0x6b93dddb else if k == 5 then 0x6f52c06c else
    if k == 6 then 0x6211e6b5 else if k == 7 then 0x66d0fb02 else
    if k == 8 then 0x5e9f46bf else if k == 9 then 0x5a5e5b08 else
    if k == 10 then 0x571d7dd1 else if k == 11 then 0x53dc6066 else
    if k == 12 then 0x4d9b3063 else if k == 13 then 0x495a2dd4 else if k == 14 then 0x44190b0d else 0x40d816ba
  }

  function Row6(k: bv8): bv32 {
    if k == 0 then 0xaca5c697 else if k == 1 then 0xa864db20 else
    if k == 2 then 0xa527fdf9 else if k == 3 then 0xa1e6e04e else
    if k == 4 then 0xbfa1b04b else if k == 5 then 0xbb60adfc else
    if k == 6 then 0xb6238b25 else if k == 7 then 0xb2e29692 else
    if k == 8 then 0x8aad2b2f else if k == 9 then 0x8e6c3698 else
    if k == 10 then 0x832f1041 else if k == 11 then 0x87ee0df6 else
    if k == 12 then 0x99a95df3 else if k == 13 then 0x9d684044 else if k == 14 then 0x902b669d else 0x94ea7b2a
  }

  function Row7(k: bv8): bv32 {
    if k == 0 then 0xe0b41de7 else if k == 1 then 0xe4750050 else
    if k == 2 then 0xe9362689 else if k == 3 then 0xedf73b3e else
    if k == 4 then 0xf3b06b3b else if k == 5 then 0xf771768c else
    if k == 6 then 0xfa325055 else if k == 7 then 0xfef34de2 else
    if k == 8 then 0xc6bcf05f else if k == 9 then 0xc27dede8 else
    if k == 10 then 0xcf3ecb31 else if k == 11 then 0xcbffd686 else
    if k == 12 then 0xd5b88683 else if k == 13 then 0xd1799b34 else if k == 14 then 0xdc3abded else 0xd8fba05a
  }

  function Row8(k: bv8): bv32 {
    if k == 0 then 0x690ce0ee else if k == 1 then 0x6dcdfd59 else
    if k == 2 then 0x608edb80 else if k == 3 then 0x644fc637 else
    if k == 4 then 0x7a089632 else if k == 5 then 0x7ec98b85 else
    if k == 6 then 0x738aad5c else if k == 7 then 0x774bb0eb else
    if k == 8 then 0x4f040d56 else if k == 9 then 0x4bc510e1 else
    if k == 10 then 0x46863638 else if k == 11 then 0x42472b8f else
    if k == 12 then 0x5c007b8a else if k == 13 then 0x58c1663d else if k == 14 then 0x558240e4 else 0x51435d53
  }

  function Row9(k: bv8): bv32 {
    if k == 0 then 0x251d3b9e else if k == 1 then 0x21dc2629 else
    if k == 2 then 0x2c9f00f0 else if k == 3 then 0x285e1d47 else
    if k == 4 then 0x36194d42 else if k == 5 then 0x32d850f5 else
    if k == 6 then 0x3f9b762c else if k == 7 then 0x3b5a6b9b else
    if k == 8 then 0x0315d626 else if k == 9 then 0x07d4cb91 else
    if k == 10 then 0x0a97ed48 else if k == 11 then 0x0e56f0ff else
    if k == 12 then 0x1011a0fa else if k == 13 then 0x14d0bd4d else if k == 14 then 0x19939b94 else 0x1d528623
  }

  function RowA(k: bv8): bv32 {
    if k == 0 then 0xf12f560e else if k == 1 then 0xf5ee4bb9 else
    if k == 2 then 0xf8ad6d60 else if k == 3 then 0xfc6c70d7 else
    if k == 4 then 0xe22b20d2 else if k == 5 then 0xe6ea3d65 else
    if k == 6 then 0xeba91bbc else if k == 7 then 0xef68060b else
    if k == 8 then 0xd727bbb6 else if k == 9 then 0xd3e6a601 else
    if k == 10 then 0xdea580d8 else if k == 11 then 0xda649d6f else
    if k == 12 then 0xc423cd6a else if k == 13 then 0xc0e2d0dd else if k == 14 then 0xcda1f604 else 0xc960ebb3
  }

  function RowB(k: bv8): bv32 {
    if k == 0 then 0xbd3e8d7e else if k == 1 then 0xb9ff90c9 else
    if k == 2 then 0xb4bcb610 else if k == 3 then 0xb07daba7 else
    if k == 4 then 0xae3afba2 else if k == 5 then 0xaafbe615 else
    if k == 6 then 0xa7b8c0cc else if k == 7 then 0xa379dd7b else
    if k == 8 then 0x9b3660c6 else if k == 9 then 0x9ff77d71 else
    if k == 10 then 0x92b45ba8 else if k == 11 then 0x9675461f else
    if k == 12 then 0x8832161a else if k == 13 then 0x8cf30bad else if k == 14 then 0x81b02d74 else 0x857130c3
  }

  function RowC(k: bv8): bv32 {
    if k == 0 then 0x5d8a9099 else if k == 1 then 0x594b8d2e else
    if k == 2 then 0x5408abf7 else if k == 3 then 0x50c9b640 else
    if k == 4 then 0x4e8ee645 else if k == 5 then 0x4a4ffbf2 else
    if k == 6 then 0x470cdd2b else if k == 7 then 0x43cdc09c else
    if k == 8 then 0x7b827d21 else if k == 9 then 0x7f436096 else
    if k == 10 then 0x7200464f else if k == 11 then 0x76c15bf8 else
    if k == 12 then 0x68860bfd else if k == 13 then 0x6c47164a else if k == 14 then 0x61043093 else 0x65c52d24
  }

  function RowD(k: bv8): bv32 {
    if k == 0 then 0x119b4be9 else if k == 1 then 0x155a565e else
    if k == 2 then 0x18197087 else if k == 3 then 0x1cd86d30 else
    if k == 4 then 0x029f3d35 else if k == 5 then 0x065e2082 else
    if k == 6 then 0x0b1d065b else if k == 7 then 0x0fdc1bec else
    if k == 8 then 0x3793a651 else if k == 9 then 0x3352bbe6 else
    if k == 10 then 0x3e119d3f else if k == 11 then 0x3ad08088 else
    if k == 12 then 0x2497d08d else if k == 13 then 0x2056cd3a else if k == 14 then 0x2d15ebe3 else 0x29d4f654
  }

  function RowE(k: bv8): bv32 {
    if k == 0 then 0xc5a92679 else if k == 1 then 0xc1683bce else
    if k == 2 then 0xcc2b1d17 else if k == 3 then 0xc8ea00a0 else
    if k == 4 then 0xd6ad50a5 else if k == 5 then 0xd26c4d12 else
    if k == 6 then 0xdf2f6bcb else if k == 7 then 0xdbee767c else
    if k == 8 then 0xe3a1cbc1 else if k == 9 then 0xe760d676 else
    if k == 10 then 0xea23f0af else if k == 11 then 0xeee2ed18 else
    if k == 12 then 0xf0a5bd1d else if k == 13 then 0xf464a0aa else if k == 14 then 0xf9278673 else 0xfde69bc4
  }

  function RowF(k: bv8): bv32 {
    if k == 0 then 0x89b8fd09 else if k == 1 then 0x8d79e0be else
    if k == 2 then 0x803ac667 else if k == 3 then 0x84fbdbd0 else
    if k == 4 then 0x9abc8bd5 else if k == 5 then 0x9e7d9662 else
    if k == 6 then 0x933eb0bb else if k == 7 then 0x97ffad0c else
    if k == 8 then 0xafb010b1 else if k == 9 then 0xab710d06 else
    if k == 10 then 0xa6322bdf else if k == 11 then 0xa2f33668 else
    if k == 12 then 0xbcb4666d else if k == 13 then 0xb8757bda else if k == 14 then 0xb5365d03 else 0xb1f740b4
  }

  /** crc_table. */
  function CrcTable(i: bv8): bv32 {
    var h, k := i >> 4, i & 0xf;
    if h == 0 then Row0(k) else if h == 1 then Row1(k) else if h == 2 then Row2(k) else if h == 3 then Row3(k) else
    if h == 4 then Row4(k) else if h == 5 then Row5(k) else if h == 6 then Row6(k) else if h == 7 then Row7(k) else
    if h == 8 then Row8(k) else if h == 9 then Row9(k) else if h == 10 then RowA(k) else if h == 11 then RowB(k) else
    if h == 12 then RowC(k) else if h == 13 then RowD(k) else if h == 14 then RowE(k) else RowF(k)
  }

  lemma TableEighth0(i: bv8)
    requires i < 0x20
    ensures CrcTable(i) == Zeros8((i as bv32) << 24)
  {
  }

  lemma TableEighth1(i: bv8)
    requires 0x20 <= i < 0x40
    ensures CrcTable(i) == Zeros8((i as bv32) << 24)
  {
  }

  lemma TableEighth2(i: bv8)
    requires 0x40 <= i < 0x60
    ensures CrcTable(i) == Zeros8((i as bv32) << 24)
  {
  }

  lemma TableEighth3(i: bv8)
    requires 0x60 <= i < 0x80
    ensures CrcTable(i) == Zeros8((i as bv32) << 24)
  {
  }

  lemma TableEighth4(i: bv8)
    requires 0x80 <= i < 0xa0
    ensures CrcTable(i) == Zeros8((i as bv32) << 24)
  {
  }

  lemma TableEighth5(i: bv8)
    requires 0xa0 <= i < 0xc0
    ensures CrcTable(i) == Zeros8((i as bv32) << 24)
  {
  }

  lemma TableEighth6(i: bv8)
    requires 0xc0 <= i < 0xe0
    ensures CrcTable(i) == Zeros8((i as bv32) << 24)
  {
  }

  lemma TableEighth7(i: bv8)
    requires 0xe0 <= i
    ensures CrcTable(i) == Zeros8((i as bv32) << 24)
  {
  }

  /** Every entry of the table is the remainder of its index, followed by zeros. */
  lemma TableIsRemainder(i: bv8)
    ensures PolyOf(CrcTable(i)) == Zeros(PolyOf((i as bv32) << 24), 8)
  {
    EightZeros((i as bv32) << 24);
    if i < 0x20 {
      TableEighth0(i);
    } else if i < 0x40 {
      TableEighth1(i);
    } else if i < 0x60 {
      TableEighth2(i);
    } else if i < 0x80 {
      TableEighth3(i);
    } else if i < 0xa0 {
      TableEighth4(i);
    } else if i < 0xc0 {
      TableEighth5(i);
    } else if i < 0xe0 {
      TableEighth6(i);
    } else {
      TableEighth7(i);
    }
  }

  ghost predicate IsRemainderTable(table: bv8 -> bv32) {
    forall i {:trigger table(i)} :: PolyOf(table(i)) == Zeros(PolyOf((i as bv32) << 24), 8)
  }

  lemma TableIsRemainders()
    ensures IsRemainderTable(CrcTable)
  {
    forall i
      ensures PolyOf(CrcTable(i)) == Zeros(PolyOf((i as bv32) << 24), 8)
    {
      TableIsRemainder(i);
    }
  }

  // ----- crc32 -----

  /** The bits of a byte, in the order of their sending. */
  function ByteBits(b: bv8): seq<bool> {
    TopBits(PolyOf((b as bv32) << 24), 8)
  }

  type Byte = x: int | 0 <= x < 256

  /** The bits of a message, most significant bit of each byte first. */
  function Bits(s: seq<Byte>): seq<bool> {
    if s == [] then [] else Bits(s[..|s| - 1]) + ByteBits(s[|s| - 1] as bv8)
  }

  /** One round of the loop of crc32. */
  function TableStep(table: bv8 -> bv32, crc: bv32, b: bv8): bv32 {
    (crc << 8) ^ table(Index(crc, b))
  }

  function Index(crc: bv32, b: bv8): bv8 {
    (((crc >> 24) ^ (b as bv32)) & 0xff) as bv8
  }

  /** The register with the byte added, split in its first byte and the rest. */
  lemma SplitHigh(crc: bv32, b: bv8, w: bv32, i: bv8, high: bv32, z: bv32)
    requires w == (b as bv32) << 24 && i == Index(crc, b) && high == (i as bv32) << 24
    requires z == crc ^ w
    ensures z & 0xff000000 == high && w << 8 == 0
  {
  }

  lemma SplitLow(crc: bv32, b: bv8, w: bv32, z: bv32, high: bv32, low: bv32)
    requires w == (b as bv32) << 24 && z == crc ^ w && high == z & 0xff000000 && low == z & 0x00ffffff
    ensures low << 8 == crc << 8 && low & 0xff000000 == 0
  {
  }

  lemma JoinParts(z: bv32, high: bv32, low: bv32)
    requires high == z & 0xff000000 && low == z & 0x00ffffff
    ensures z == high ^ low
  {
  }

  /** A word of eight bits is moved out by eight bits. */
  lemma MovedOut(w: bv32)
    requires w << 8 == 0
    ensures Moved(PolyOf(w), 8) == {}
  {
    forall e | e in PolyOf(w)
      ensures e + 8 >= 32
    {
      InPoly(w, e);
      if e < 24 {
        NextEight(w, 0, 23 - e);
        NothingThere(0, 23 - e);
      }
    }
    MovedAway(PolyOf(w), 8);
  }

  /** Eight zero bits only move a word whose first byte is zero. */
  lemma LowMoves(low: bv32, up: bv32)
    requires low & 0xff000000 == 0 && up == low << 8
    ensures Zeros(PolyOf(low), 8) == PolyOf(up)
  {
    forall e | e in PolyOf(low)
      ensures e + 8 < 32
    {
      InPoly(low, e);
      if e >= 24 {
        TopByteClear(low, 31 - e);
      }
    }
    LowZeros(PolyOf(low), 8);
    EightMoves(low);
  }

  lemma TopByteClear(low: bv32, k: nat)
    requires low & 0xff000000 == 0 && k < 8
    ensures !BitFromTop(TopBit, Next, low, k)
  {
    EightBits(low);
    ClearMasks(low);
  }

  lemma ClearMasks(low: bv32)
    requires low & 0xff000000 == 0
    ensures low & 0x80000000 == 0 && low & 0x40000000 == 0 && low & 0x20000000 == 0 && low & 0x10000000 == 0
    ensures low & 0x08000000 == 0 && low & 0x04000000 == 0 && low & 0x02000000 == 0 && low & 0x01000000 == 0
  {
  }

  /** The algebra of one round, with `w` the byte at the top of a word. */
  lemma RoundAlgebra(crc: Poly, w: Poly, high: Poly, low: Poly, table: Poly, up: Poly)
    requires Plus(crc, w) == Plus(high, low) && Moved(w, 8) == {}
    requires Zeros(high, 8) == table && Zeros(low, 8) == up
    ensures Divide(crc, TopBits(w, 8)) == Plus(up, table)
  {
    DivideWord(crc, w, 8);
    ZerosPlus(high, low, 8);
    assert Plus(table, up) == Plus(up, table);
    assert Plus(Divide(crc, TopBits(w, 8)), {}) == Divide(crc, TopBits(w, 8));
  }

  lemma RoundOfWords(crc: bv32, w: bv32, high: bv32, low: bv32, z: bv32, table: bv32, up: bv32, r: bv32)
    requires z == Xor(crc, w) && z == Xor(high, low) && r == Xor(up, table)
    requires Moved(PolyOf(w), 8) == {} && Zeros(PolyOf(high), 8) == PolyOf(table) && Zeros(PolyOf(low), 8) == PolyOf(up)
    ensures PolyOf(r) == Divide(PolyOf(crc), TopBits(PolyOf(w), 8))
  {
    PolyXor(crc, w, z);
    PolyXor(high, low, z);
    PolyXor(up, table, r);
    RoundAlgebra(PolyOf(crc), PolyOf(w), PolyOf(high), PolyOf(low), PolyOf(table), PolyOf(up));
  }

  lemma XorIs(a: bv32, b: bv32, c: bv32)
    requires c == a ^ b
    ensures c == Xor(a, b)
  {
  }

  /** The words of one round. */
  lemma RoundSplit(crc: bv32, b: bv8, w: bv32, i: bv8, high: bv32, z: bv32, low: bv32, up: bv32)
    requires w == (b as bv32) << 24 && i == Index(crc, b) && high == (i as bv32) << 24
    requires z == crc ^ w && low == z & 0x00ffffff && up == crc << 8
    ensures z == Xor(crc, w) && z == Xor(high, low)
    ensures w << 8 == 0 && low & 0xff000000 == 0 && up == low << 8
  {
    SplitHigh(crc, b, w, i, high, z);
    RoundParts(crc, b, w, high, z, low, up);
  }

  lemma RoundParts(crc: bv32, b: bv8, w: bv32, high: bv32, z: bv32, low: bv32, up: bv32)
    requires w == (b as bv32) << 24 && z == crc ^ w && high == z & 0xff000000
    requires low == z & 0x00ffffff && up == crc << 8
    ensures z == Xor(crc, w) && z == Xor(high, low)
    ensures low & 0xff000000 == 0 && up == low << 8
  {
    XorIs(crc, w, z);
    PartsXor(z, high, low);
    SplitLow(crc, b, w, z, high, low);
  }

  lemma PartsXor(z: bv32, high: bv32, low: bv32)
    requires high == z & 0xff000000 && low == z & 0x00ffffff
    ensures z == Xor(high, low)
  {
    JoinParts(z, high, low);
    XorIs(high, low, z);
  }

  lemma RoundDivides(crc: bv32, b: bv8, w: bv32, i: bv8, high: bv32, z: bv32, low: bv32, table: bv32, up: bv32, r: bv32)
    requires w == (b as bv32) << 24 && i == Index(crc, b) && high == (i as bv32) << 24
    requires z == crc ^ w && low == z & 0x00ffffff && up == crc << 8 && r == Xor(up, table)
    requires Zeros(PolyOf(high), 8) == PolyOf(table)
    ensures PolyOf(r) == Divide(PolyOf(crc), TopBits(PolyOf(w), 8))
  {
    RoundSplit(crc, b, w, i, high, z, low, up);
    RoundMoves(crc, w, high, z, low, table, up, r);
  }

  lemma RoundMoves(crc: bv32, w: bv32, high: bv32, z: bv32, low: bv32, table: bv32, up: bv32, r: bv32)
    requires z == Xor(crc, w) && z == Xor(high, low) && w << 8 == 0 && low & 0xff000000 == 0 && up == low << 8
    requires r == Xor(up, table) && Zeros(PolyOf(high), 8) == PolyOf(table)
    ensures PolyOf(r) == Divide(PolyOf(crc), TopBits(PolyOf(w), 8))
  {
    MovedOut(w);
    LowMoves(low, up);
    RoundOfWords(crc, w, high, low, z, table, up, r);
  }

  lemma RoundFromSum(crc: bv32, b: bv8, w: bv32, i: bv8, high: bv32, z: bv32, table: bv32, r: bv32)
    requires w == (b as bv32) << 24 && i == Index(crc, b) && high == (i as bv32) << 24 && z == crc ^ w
    requires Zeros(PolyOf(high), 8) == PolyOf(table) && r == (crc << 8) ^ table
    ensures PolyOf(r) == Divide(PolyOf(crc), TopBits(PolyOf(w), 8))
  {
    XorIs(crc << 8, table, r);
    RoundDivides(crc, b, w, i, high, z, z & 0x00ffffff, table, crc << 8, r);
  }

  lemma RoundFromWord(crc: bv32, b: bv8, w: bv32, i: bv8, high: bv32, table: bv32, r: bv32)
    requires w == (b as bv32) << 24 && i == Index(crc, b) && high == (i as bv32) << 24
    requires Zeros(PolyOf(high), 8) == PolyOf(table) && r == (crc << 8) ^ table
    ensures PolyOf(r) == Divide(PolyOf(crc), TopBits(PolyOf(w), 8))
  {
    RoundFromSum(crc, b, w, i, high, crc ^ w, table, r);
  }

  lemma RoundFromByte(crc: bv32, b: bv8, i: bv8, table: bv32, r: bv32)
    requires i == Index(crc, b) && r == (crc << 8) ^ table
    requires Zeros(PolyOf((i as bv32) << 24), 8) == PolyOf(table)
    ensures PolyOf(r) == Divide(PolyOf(crc), ByteBits(b))
  {
    RoundFromWord(crc, b, (b as bv32) << 24, i, (i as bv32) << 24, table, r);
  }

  /** A round divides the eight bits of the byte. */
  lemma StepDivides(table: bv8 -> bv32, crc: bv32, b: bv8)
    requires IsRemainderTable(table)
    ensures PolyOf(TableStep(table, crc, b)) == Divide(PolyOf(crc), ByteBits(b))
  {
    RoundFromByte(crc, b, Index(crc, b), table(Index(crc, b)), TableStep(table, crc, b));
  }

  /** crc32: the loop over the bytes equals the division of their bits. */
  method Crc32(crc: bv32, buf: array<Byte>, length: nat) returns (r: bv32)
    requires length <= buf.Length
    ensures PolyOf(r) == Divide(PolyOf(crc), Bits(buf[..length]))
  {
    r := crc;
    var i := 0;
    assert buf[..0] == [];
    TableIsRemainders();
    while i < length
      invariant 0 <= i <= length
      invariant PolyOf(r) == Divide(PolyOf(crc), Bits(buf[..i]))
    {
      var b := buf[i] as bv8;
      StepDivides(CrcTable, r, b);
      DivideAppend(PolyOf(crc), Bits(buf[..i]), ByteBits(b));
      assert buf[..i + 1][..i] == buf[..i];
      r := TableStep(CrcTable, r, b);
      i := i + 1;
    }
  }

  /** A word is determined by its polynomial. */
  lemma PolyDeterminesWord(a: bv32, b: bv32)
    requires PolyOf(a) == PolyOf(b)
    ensures a == b
  {
    var c := Xor(a, b);
    PolyXor(a, b, c);
    assert PolyOf(c) == {};
    NoTerms(c);
    SameWords(a, b, c);
  }

  lemma SameWords(a: bv32, b: bv32, c: bv32)
    requires c == a ^ b && c == 0
    ensures a == b
  {
  }

  lemma FirstByteClear(c: bv32)
    requires forall k: nat | k < 8 :: !BitFromTop(TopBit, Next, c, k)
    ensures c & 0xff000000 == 0
  {
    EightBits(c);
    MasksClear(c);
  }

  lemma MasksClear(c: bv32)
    requires c & 0x80000000 == 0 && c & 0x40000000 == 0 && c & 0x20000000 == 0 && c & 0x10000000 == 0
    requires c & 0x08000000 == 0 && c & 0x04000000 == 0 && c & 0x02000000 == 0 && c & 0x01000000 == 0
    ensures c & 0xff000000 == 0
  {
  }

  lemma AllBytesClear(c: bv32, c1: bv32, c2: bv32, c3: bv32)
    requires c1 == c << 8 && c2 == c1 << 8 && c3 == c2 << 8
    requires c & 0xff000000 == 0 && c1 & 0xff000000 == 0 && c2 & 0xff000000 == 0 && c3 & 0xff000000 == 0
    ensures c == 0
  {
  }

  lemma NoTerms(c: bv32)
    requires PolyOf(c) == {}
    ensures c == 0
  {
    var c1 := c << 8;
    var c2 := c1 << 8;
    var c3 := c2 << 8;
    forall k: nat | k < 8
      ensures !BitFromTop(TopBit, Next, c, k) && !BitFromTop(TopBit, Next, c1, k)
      ensures !BitFromTop(TopBit, Next, c2, k) && !BitFromTop(TopBit, Next, c3, k)
    {
      InPoly(c, 31 - k);
      InPoly(c, 23 - k);
      InPoly(c, 15 - k);
      InPoly(c, 7 - k);
      NextEight(c, c1, k);
      NextEight(c, c1, 8 + k);
      NextEight(c, c1, 16 + k);
      NextEight(c1, c2, k);
      NextEight(c1, c2, 8 + k);
      NextEight(c2, c3, k);
    }
    FirstByteClear(c);
    FirstByteClear(c1);
    FirstByteClear(c2);
    FirstByteClear(c3);
    AllBytesClear(c, c1, c2, c3);
  }
}
