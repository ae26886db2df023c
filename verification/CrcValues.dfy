/**
 Values of the checksum for given frames: arithmetic without exclusive or that computes the register, and what it
 gives. These values hold of the register of the standard only, with its start and its polynomial.
 */
module CrcValues {
  import opened Bytes
  import opened BitXor
  import opened Crc16
  import opened Modulo

  lemma XorDoubled(a: nat, p: nat)
    ensures Xor(a, 2 * p) == 2 * Xor(a / 2, p) + a % 2
  {
  }

  /** Exclusive or with a power of two turns one bit over. */
  lemma {:induction false} FlipBit(a: nat, n: nat, p: nat)
    requires p == Pow2(n)
    ensures Xor(a, p) == if a / p % 2 == 1 then a - p else a + p
    decreases n
  {
    if n == 0 {
      WithZero(a / 2);
    } else {
      FlipBit(a / 2, n - 1, p / 2);
      XorDoubled(a, p / 2);
      HalfOf(a, p / 2);
    }
  }

  lemma HalfOf(a: nat, p: nat)
    requires p > 0
    ensures a / (2 * p) == a / 2 / p
  {
    var q, r := a / 2 / p, a / 2 % p;
    assert a / 2 == p * q + r;
    assert 2 * p * q == 2 * (p * q);
    QuotientUnique(a, 2 * p, q, 2 * r + a % 2);
  }

  /** The effect of the polynomial 0xa001 on a register that has just been shifted: its bits 15, 13 and 0. */
  function Struck(h: nat): nat {
    var high := if h / 0x2000 % 2 == 1 then h + 0x8000 - 0x2000 else h + 0x8000 + 0x2000;
    if high % 2 == 1 then high - 1 else high + 1
  }

  lemma Powers()
    ensures Pow2(0) == 1 && Pow2(13) == 0x2000 && Pow2(15) == 0x8000
  {
    Widths();
    assert Pow2(14) == 0x4000;
  }

  lemma PolyParts()
    ensures Xor(Xor(0x8000, 0x2000), 1) == POLY
  {
    Powers();
    FlipBit(0x8000, 13, 0x2000);
    FlipBit(0xa000, 0, 1);
  }

  lemma StruckIs(h: nat)
    requires h < 0x8000
    ensures Xor(h, POLY) == Struck(h)
  {
    PolyParts();
    Associates(h, Xor(0x8000, 0x2000), 1);
    Associates(h, 0x8000, 0x2000);
    ThreeFlips(h, 0x8000, 0x2000, 1);
  }

  lemma ThreeFlips(h: nat, p: nat, q: nat, r: nat)
    requires h < 0x8000 && p == 0x8000 && q == 0x2000 && r == 1
    ensures Xor(Xor(Xor(h, p), q), r) == Struck(h)
  {
    Powers();
    FlipBit(h, 15, p);
    FlipBit(h + p, 13, q);
    HigherBit(h, p, q);
    FlipBit(Xor(h + p, q), 0, r);
  }

  lemma HigherBit(h: nat, p: nat, q: nat)
    requires p == 0x8000 && q == 0x2000
    ensures (h + p) / q % 2 == h / q % 2
  {
  }

  /** One bit into the register. */
  function Clock(r: nat, bit: bool): nat {
    if (r % 2 == 1) != bit then Struck(r / 2) else r / 2
  }

  lemma ClockIs(r: Word, bit: bool)
    ensures Feed(r, bit) == Clock(r, bit)
  {
    StruckIs(r / 2);
    XorBits(r, One(bit));
    WithZero(r / 2);
  }

  /** The low `n` bits of `b` into the register. */
  function ClockBits(r: nat, b: nat, n: nat): nat
    decreases n
  {
    if n == 0 then r else ClockBits(Clock(r, b % 2 == 1), b / 2, n - 1)
  }

  lemma {:induction false} ClockBitsIs(r: Word, b: Word, n: nat)
    ensures Serial(r, LowBits(b, n)) == ClockBits(r, b, n)
    decreases n
  {
    if n > 0 {
      ClockIs(r, b % 2 == 1);
      ClockBitsIs(Feed(r, b % 2 == 1), b / 2, n - 1);
      assert LowBits(b, n)[1..] == LowBits(b / 2, n - 1);
    }
  }

  lemma StepIs(r: Word, b: Byte)
    ensures Step(r, b) == ClockBits(r, b, 8)
  {
    Widths();
    WaitingBits(r, b, 8);
    ClockBitsIs(r, b, 8);
  }

  lemma OneClock(r: nat, b: nat, n: nat, next: nat)
    requires next == Clock(r, b % 2 == 1)
    ensures ClockBits(r, b, n + 1) == ClockBits(next, b / 2, n)
  {
  }

  lemma Halves(b: nat)
    ensures b / 2 / 2 == b / 4 && b / 4 / 2 == b / 8 && b / 8 / 2 == b / 16
  {
  }

  lemma FourClocks(r: nat, b: nat, n: nat, s: nat, t: nat, u: nat, v: nat)
    requires s == Clock(r, b % 2 == 1) && t == Clock(s, b / 2 % 2 == 1)
    requires u == Clock(t, b / 4 % 2 == 1) && v == Clock(u, b / 8 % 2 == 1)
    ensures ClockBits(r, b, n + 4) == ClockBits(v, b / 16, n)
  {
    Halves(b);
    OneClock(r, b, n + 3, s);
    OneClock(s, b / 2, n + 2, t);
    OneClock(t, b / 4, n + 1, u);
    OneClock(u, b / 8, n, v);
  }

  /** Half a byte into the register, by what the register is after each bit. */
  predicate Nibble(r: nat, b: nat, s: nat, t: nat, u: nat, v: nat) {
    && s == Clock(r, b % 2 == 1) && t == Clock(s, b / 2 % 2 == 1)
    && u == Clock(t, b / 4 % 2 == 1) && v == Clock(u, b / 8 % 2 == 1)
  }

  lemma ByteValue(r: Word, b: Byte, s: nat, t: nat, u: nat, v: nat, w: nat, x: nat, y: nat, z: nat)
    requires Nibble(r, b, s, t, u, v) && Nibble(v, b / 16, w, x, y, z)
    ensures Step(r, b) == z
  {
    StepIs(r, b);
    FourClocks(r, b, 4, s, t, u, v);
    FourClocks(v, b / 16, 0, w, x, y, z);
  }

  /** Names a frame; until it is named, the fact below is not unfolded. */
  ghost predicate Name(data: seq<Byte>, k: int) {
    true
  }

  /** After `i` bytes of the frame the register is `r`. */
  ghost predicate Reaches(data: seq<Byte>, i: nat, r: nat) {
    forall k {:trigger Name(data, k)} :: Name(data, k) ==>
      i <= |data| && r < 0x10000 && Checksum(INIT, data) == Checksum(r, data[i..])
  }

  lemma Begins(data: seq<Byte>)
    ensures Reaches(data, 0, 0xffff)
  {
    assert data[0..] == data;
  }

  lemma NextByte(data: seq<Byte>, i: nat, b: Byte, r: nat,
                 s: nat, t: nat, u: nat, v: nat, w: nat, x: nat, y: nat, z: nat)
    requires i < |data| && data[i] == b && Reaches(data, i, r)
    requires Nibble(r, b, s, t, u, v) && Nibble(v, b / 16, w, x, y, z)
    ensures Reaches(data, i + 1, z)
  {
    assert Name(data, 0);
    ByteValue(r, b, s, t, u, v, w, x, y, z);
    assert data[i..][1..] == data[i + 1..];
  }

  lemma Ends(data: seq<Byte>, r: nat)
    requires Reaches(data, |data|, r)
    ensures Checksum(INIT, data) == r
  {
    assert Name(data, 0);
  }

  lemma TwoOfFour(data: seq<Byte>)
    requires data == [18, 35, 52, 86]
    ensures Reaches(data, 2, 51532)
  {
    Begins(data);
    NextByte(data, 0, 18, 65535, 57342, 53246, 26623, 37886, 59902, 29951, 39550, 19775);
    NextByte(data, 1, 35, 19775, 9887, 4943, 43430, 21715, 35432, 58677, 53915, 51532);
  }

  /** The frame of the unit test of the checksum. */
  lemma FourBytes(data: seq<Byte>, crc: Word)
    requires crc == Checksum(INIT, data)
    ensures data == [18, 35, 52, 86] ==> crc == 26722
  {
    if data == [18, 35, 52, 86] {
      FourOfFour(data);
      Ends(data, 26722);
    }
  }

  lemma FourOfFour(data: seq<Byte>)
    requires data == [18, 35, 52, 86]
    ensures Reaches(data, 4, 26722)
  {
    TwoOfFour(data);
    NextByte(data, 2, 52, 51532, 25766, 12883, 6441, 44181, 22090, 35620, 17810, 8905);
    NextByte(data, 3, 86, 8905, 45413, 22706, 35928, 17964, 33559, 57738, 53444, 26722);
  }

  lemma TwoOfSix(data: seq<Byte>)
    requires data == [1, 4, 0, 0, 0, 10]
    ensures Reaches(data, 2, 58113)
  {
    Begins(data);
    NextByte(data, 0, 1, 65535, 32767, 40958, 20479, 34814, 17407, 33278, 16639, 32894);
    NextByte(data, 1, 4, 32894, 16447, 32798, 57358, 28679, 38914, 19457, 34305, 58113);
  }

  lemma FourOfSix(data: seq<Byte>)
    requires data == [1, 4, 0, 0, 0, 10]
    ensures Reaches(data, 4, 6464)
  {
    TwoOfSix(data);
    NextByte(data, 2, 0, 58113, 53633, 51393, 50273, 49713, 49433, 49293, 49223, 49186);
    NextByte(data, 3, 0, 49186, 24593, 36873, 59397, 54275, 51712, 25856, 12928, 6464);
  }

  /** The request to the meter at address 1. */
  lemma RequestValue(data: seq<Byte>, crc: Word)
    requires crc == Checksum(INIT, data)
    requires |data| == 6 && data[1] == 4 && data[2] == data[3] == data[4] == 0 && data[5] == 10
    ensures data[0] == 1 ==> crc == 0x0d70
  {
    if data == [1, 4, 0, 0, 0, 10] {
      SixOfSix(data);
      Ends(data, 3440);
    }
  }

  lemma SixOfSix(data: seq<Byte>)
    requires data == [1, 4, 0, 0, 0, 10]
    ensures Reaches(data, 6, 3440)
  {
    FourOfSix(data);
    NextByte(data, 4, 0, 6464, 3232, 1616, 808, 404, 202, 101, 41011, 61464);
    NextByte(data, 5, 10, 61464, 30732, 39943, 60930, 55040, 27520, 13760, 6880, 3440);
  }
}
