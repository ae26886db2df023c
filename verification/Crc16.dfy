/**
 The checksum of MODBUS over Serial Line (V1.02, section 6.2.2) and the errors it finds. The reference is the
 serial form, which takes a frame bit by bit, the least significant bit of each byte first.
 */
module Crc16 {
  import opened Bytes
  import opened BitXor

  type Word = w: nat | w < 0x10000

  const INIT: Word := 0xffff

  const POLY: Word := 0xa001

  lemma Widths()
    ensures Pow2(8) == 256 && Pow2(15) == 0x8000 && Pow2(16) == 0x10000
  {
  }

  lemma XorIsWord(a: Word, b: Word)
    ensures Xor(a, b) < 0x10000
  {
    Widths();
    StaysBelow(a, b, 16);
  }

  /** One shift of the register. */
  function Shift(r: Word): Word {
    XorIsWord(r / 2, POLY);
    if r % 2 == 1 then Xor(r / 2, POLY) else r / 2
  }

  function Mixed(r: Word, b: Word): Word {
    XorIsWord(r, b);
    Xor(r, b)
  }

  function Shifts(r: Word, n: nat): Word
    decreases n, r
  {
    if n == 0 then r else Shifts(Shift(r), n - 1)
  }

  /** The register after one more byte, the way the driver takes it: all eight bits at once. */
  function Step(r: Word, b: Byte): Word {
    Shifts(Mixed(r, b), 8)
  }

  function Checksum(r: Word, data: seq<Byte>): Word
    decreases |data|
  {
    if data == [] then r else Checksum(Step(r, data[0]), data[1..])
  }

  lemma {:induction false} ChecksumNext(r: Word, data: seq<Byte>, b: Byte)
    ensures Checksum(r, data + [b]) == Step(Checksum(r, data), b)
    decreases |data|
  {
    if data != [] {
      assert (data + [b])[1..] == data[1..] + [b];
      ChecksumNext(Step(r, data[0]), data[1..], b);
    }
  }

  // ---------------------------------------------------------------------------------------------------
  // One shift
  // ---------------------------------------------------------------------------------------------------

  lemma ShiftIsLinear(r: Word, s: Word)
    ensures Mixed(Shift(r), Shift(s)) == Shift(Mixed(r, s))
  {
    XorBits(r, s);
    var x, y := if r % 2 == 1 then POLY else 0, if s % 2 == 1 then POLY else 0;
    WithZero(r / 2);
    WithZero(s / 2);
    WithZero(Xor(r / 2, s / 2));
    WithZero(POLY);
    ZeroIffEqual(POLY, POLY);
    Regrouped(r / 2, x, s / 2, y);
  }

  /** Odd registers get the top bit of the polynomial. */
  lemma ShiftOfOdd(r: Word)
    ensures Shift(r) >= 0x8000 <==> r % 2 == 1
  {
    Widths();
    TopBitPasses(r / 2, POLY - 0x8000, 15);
  }

  /** A shift that comes out below 0x8000 has only dropped a zero. */
  lemma ShiftOfEven(r: Word)
    requires Shift(r) < 0x8000
    ensures r == 2 * Shift(r)
  {
    ShiftOfOdd(r);
  }

  lemma ShiftIsInjective(r: Word, s: Word)
    requires Shift(r) == Shift(s)
    ensures r == s
  {
    ShiftIsLinear(r, s);
    ZeroIffEqual(Shift(r), Shift(s));
    ShiftOfEven(Mixed(r, s));
    ZeroIffEqual(r, s);
  }

  // ---------------------------------------------------------------------------------------------------
  // The serial form
  // ---------------------------------------------------------------------------------------------------

  function One(bit: bool): Word {
    if bit then 1 else 0
  }

  /** The register after one more bit. */
  function Feed(r: Word, bit: bool): Word {
    Shift(Mixed(r, One(bit)))
  }

  function Serial(r: Word, bits: seq<bool>): Word
    decreases |bits|
  {
    if bits == [] then r else Serial(Feed(r, bits[0]), bits[1..])
  }

  function LowBits(b: Word, n: nat): (bits: seq<bool>)
    ensures |bits| == n
    decreases n, b
  {
    if n == 0 then [] else [b % 2 == 1] + LowBits(b / 2, n - 1)
  }

  function Octet(b: Byte): (bits: seq<bool>)
    ensures |bits| == 8
  {
    LowBits(b, 8)
  }

  /** The bits of a frame in the order in which they are sent. */
  function FrameBits(data: seq<Byte>): (bits: seq<bool>)
    ensures |bits| == 8 * |data|
  {
    if data == [] then [] else Octet(data[0]) + FrameBits(data[1..])
  }

  lemma FeedAndWait(r: Word, b: Word)
    ensures Shift(Mixed(r, b)) == Mixed(Feed(r, b % 2 == 1), b / 2)
  {
    var low, high := b % 2, 2 * (b / 2);
    assert Xor(low, high) == b by {
      XorBits(low, high);
      WithZero(b / 2);
      SameBits(Xor(low, high), b);
    }
    Associates(r, low, high);
    ShiftIsLinear(Mixed(r, low), high);
  }

  /** Bits that wait in the register count for as much as bits that come in one by one. */
  lemma {:induction false} WaitingBits(r: Word, b: Word, n: nat)
    requires b < Pow2(n)
    ensures Shifts(Mixed(r, b), n) == Serial(r, LowBits(b, n))
    decreases n
  {
    if n == 0 {
      WithZero(r);
    } else {
      FeedAndWait(r, b);
      WaitingBits(Feed(r, b % 2 == 1), b / 2, n - 1);
      assert LowBits(b, n)[1..] == LowBits(b / 2, n - 1);
    }
  }

  lemma {:induction false} SerialJoins(r: Word, a: seq<bool>, b: seq<bool>)
    ensures Serial(r, a + b) == Serial(Serial(r, a), b)
    decreases |a|
  {
    if a == [] {
      assert a + b == b;
    } else {
      assert (a + b)[1..] == a[1..] + b;
      SerialJoins(Feed(r, a[0]), a[1..], b);
    }
  }

  /** The driver's byte-wise register is the serial one. */
  lemma {:induction false} ChecksumIsSerial(r: Word, data: seq<Byte>)
    ensures Checksum(r, data) == Serial(r, FrameBits(data))
    decreases |data|
  {
    if data != [] {
      Widths();
      WaitingBits(r, data[0], 8);
      SerialJoins(r, Octet(data[0]), FrameBits(data[1..]));
      ChecksumIsSerial(Step(r, data[0]), data[1..]);
    }
  }

  // ---------------------------------------------------------------------------------------------------
  // Errors the checksum finds
  // ---------------------------------------------------------------------------------------------------

  lemma FeedsAreLinear(r: Word, s: Word, x: bool, y: bool)
    ensures Mixed(Feed(r, x), Feed(s, y)) == Shift(Mixed(Mixed(r, s), One(x != y)))
  {
    ShiftIsLinear(Mixed(r, One(x)), Mixed(s, One(y)));
    Regrouped(r, One(x), s, One(y));
  }

  lemma NearBefore(d: Word, bit: bool, n: nat)
    requires n < 15 && Shift(Mixed(d, One(bit))) < Pow2(n)
    ensures d < Pow2(n + 1)
  {
    Widths();
    PowersGrow(n, 15);
    ShiftOfEven(Mixed(d, One(bit)));
    XorBits(d, One(bit));
    WithZero(d / 2);
  }

  lemma {:induction false} PowersGrow(m: nat, n: nat)
    requires m <= n
    ensures Pow2(m) <= Pow2(n)
    decreases n
  {
    if m < n {
      PowersGrow(m, n - 1);
    }
  }

  /** Two registers that the next `n` bits bring together again differ in their low `n` bits only. */
  lemma {:induction false} MeetingIsNear(r: Word, s: Word, a: seq<bool>, b: seq<bool>)
    requires |a| == |b| <= 15 && Serial(r, a) == Serial(s, b)
    ensures Mixed(r, s) < Pow2(|a|)
    decreases |a|
  {
    if a == [] {
      ZeroIffEqual(r, s);
    } else {
      MeetingIsNear(Feed(r, a[0]), Feed(s, b[0]), a[1..], b[1..]);
      FeedsAreLinear(r, s, a[0], b[0]);
      NearBefore(Mixed(r, s), a[0] != b[0], |a| - 1);
    }
  }

  /** The same bits afterwards cannot hide a difference. */
  lemma {:induction false} DifferenceLasts(r: Word, s: Word, bits: seq<bool>)
    requires r != s
    ensures Serial(r, bits) != Serial(s, bits)
    decreases |bits|
  {
    if bits != [] {
      if Feed(r, bits[0]) == Feed(s, bits[0]) {
        ShiftIsInjective(Mixed(r, One(bits[0])), Mixed(s, One(bits[0])));
        Cancels(r, One(bits[0]));
        Cancels(s, One(bits[0]));
      }
      DifferenceLasts(Feed(r, bits[0]), Feed(s, bits[0]), bits[1..]);
    }
  }

  lemma FirstDifference(r: Word, x: bool, y: bool)
    requires x != y
    ensures Mixed(Feed(r, x), Feed(r, y)) >= 0x8000
  {
    FeedsAreLinear(r, r, x, y);
    ZeroIffEqual(r, r);
    WithZero(1);
    ShiftOfOdd(1);
  }

  /** Up to sixteen bits, not all the same, never leave the same register behind. */
  lemma {:induction false} WindowIsInjective(r: Word, a: seq<bool>, b: seq<bool>)
    requires |a| == |b| <= 16 && a != b
    ensures Serial(r, a) != Serial(r, b)
    decreases |a|
  {
    if a[0] == b[0] {
      assert a == [a[0]] + a[1..] && b == [b[0]] + b[1..];
      WindowIsInjective(Feed(r, a[0]), a[1..], b[1..]);
    } else {
      var r1, s1 := Feed(r, a[0]), Feed(r, b[0]);
      FirstDifference(r, a[0], b[0]);
      if Serial(r1, a[1..]) == Serial(s1, b[1..]) {
        MeetingIsNear(r1, s1, a[1..], b[1..]);
        Widths();
        PowersGrow(|a| - 1, 15);
      }
    }
  }

  /** Main result: no burst of errors up to sixteen bits long, wherever it begins, goes unnoticed. */
  lemma BurstIsFound(r: Word, before: seq<bool>, a: seq<bool>, b: seq<bool>, after: seq<bool>)
    requires |a| == |b| <= 16 && a != b
    ensures Serial(r, before + a + after) != Serial(r, before + b + after)
  {
    SerialJoins(r, before + a, after);
    SerialJoins(r, before + b, after);
    SerialJoins(r, before, a);
    SerialJoins(r, before, b);
    WindowIsInjective(Serial(r, before), a, b);
    DifferenceLasts(Serial(r, before + a), Serial(r, before + b), after);
  }

  function OddBits(bits: seq<bool>): bool {
    if bits == [] then false else bits[0] != OddBits(bits[1..])
  }

  lemma OddDoubled(a: nat)
    ensures Odd(8 * a) == Odd(a)
  {
    assert Odd(2 * a) == Odd(a);
    assert Odd(4 * a) == Odd(2 * a);
  }

  lemma PolyIsOdd()
    ensures Odd(POLY)
  {
    OddDoubled(5);
    OddDoubled(0x28);
    OddDoubled(0x140);
    OddDoubled(0xa00);
  }

  lemma FeedKeepsParity(r: Word, bit: bool)
    ensures Odd(Feed(r, bit)) == (Odd(r) != bit)
  {
    var m := Mixed(r, One(bit));
    OddOfXor(r, One(bit));
    OddOfXor(m / 2, POLY);
    PolyIsOdd();
  }

  /** The register always has the parity of the bits it has taken. */
  lemma {:induction false} SerialKeepsParity(r: Word, bits: seq<bool>)
    ensures Odd(Serial(r, bits)) == (Odd(r) != OddBits(bits))
    decreases |bits|
  {
    if bits != [] {
      FeedKeepsParity(r, bits[0]);
      SerialKeepsParity(Feed(r, bits[0]), bits[1..]);
    }
  }

  /** The number of places in which two frames differ. */
  function Errors(a: seq<bool>, b: seq<bool>): nat
    requires |a| == |b|
  {
    if a == [] then 0 else (if a[0] == b[0] then 0 else 1) + Errors(a[1..], b[1..])
  }

  lemma {:induction false} ErrorsChangeParity(a: seq<bool>, b: seq<bool>)
    requires |a| == |b|
    ensures (Errors(a, b) % 2 == 1) == (OddBits(a) != OddBits(b))
    decreases |a|
  {
    if a != [] {
      ErrorsChangeParity(a[1..], b[1..]);
    }
  }

  /** Main result: no odd number of errors, wherever they are, goes unnoticed. */
  lemma OddErrorsAreFound(r: Word, a: seq<bool>, b: seq<bool>)
    requires |a| == |b| && Errors(a, b) % 2 == 1
    ensures Serial(r, a) != Serial(r, b)
  {
    SerialKeepsParity(r, a);
    SerialKeepsParity(r, b);
    ErrorsChangeParity(a, b);
  }
}
