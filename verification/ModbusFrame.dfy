/** The frames of the energy meter: how they are closed with a checksum and how they are checked. */
module ModbusFrame {
  import opened Bytes
  import opened BitXor
  import opened Crc16
  import CrcValues

  /** Long enough, and nothing is left of the checksum when its own two bytes have been taken as well. */
  predicate Accepts(frame: seq<Byte>) {
    |frame| > 5 && Checksum(INIT, frame) == 0
  }

  // ---------------------------------------------------------------------------------------------------
  // The two bytes of the checksum
  // ---------------------------------------------------------------------------------------------------

  lemma {:induction false} HighBitsMoveDown(high: nat, n: nat)
    requires high * Pow2(n) < 0x10000
    ensures Shifts(high * Pow2(n), n) == high
    decreases n
  {
    if n > 0 {
      assert high * Pow2(n) == 2 * (high * Pow2(n - 1));
      HighBitsMoveDown(high, n - 1);
    }
  }

  lemma LowByteTaken(r: Word)
    ensures Step(r, r % 256) == r / 256
  {
    Widths();
    Disjoint(r / 256, r % 256, 8);
    assert r / 256 * 256 + r % 256 == r;
    HighBitsMoveDown(r / 256, 8);
  }

  lemma ChecksumOfTwo(r: Word, a: Byte, b: Byte)
    ensures Checksum(r, [a, b]) == Step(Step(r, a), b)
  {
    ChecksumNext(r, [a], b);
    ChecksumNext(r, [], a);
    assert [] + [a] == [a] && [a] + [b] == [a, b];
  }

  lemma ClosingWorks(r: Word)
    ensures Checksum(r, [r % 256, r / 256]) == 0
  {
    var high := r / 256;
    LowByteTaken(r);
    LowByteTaken(high);
    ChecksumOfTwo(r, r % 256, high);
  }

  lemma {:induction false} BitsTellWord(a: Word, b: Word, n: nat)
    requires a < Pow2(n) && b < Pow2(n) && LowBits(a, n) == LowBits(b, n)
    ensures a == b
    decreases n
  {
    if n > 0 {
      var p, q := LowBits(a / 2, n - 1), LowBits(b / 2, n - 1);
      assert ([a % 2 == 1] + p)[1..] == p && ([b % 2 == 1] + q)[1..] == q;
      assert LowBits(a, n)[0] == LowBits(b, n)[0];
      BitsTellWord(a / 2, b / 2, n - 1);
      SameBits(a, b);
    }
  }

  lemma {:induction false} BitsTellFrame(a: seq<Byte>, b: seq<Byte>)
    requires |a| == |b| && FrameBits(a) == FrameBits(b)
    ensures a == b
    decreases |a|
  {
    if a != [] {
      var p, q := FrameBits(a[1..]), FrameBits(b[1..]);
      assert Octet(a[0]) == (Octet(a[0]) + p)[..8] == (Octet(b[0]) + q)[..8] == Octet(b[0]);
      assert p == (Octet(a[0]) + p)[8..] == (Octet(b[0]) + q)[8..] == q;
      Widths();
      BitsTellWord(a[0], b[0], 8);
      BitsTellFrame(a[1..], b[1..]);
      assert a == [a[0]] + a[1..] && b == [b[0]] + b[1..];
    }
  }

  /** Only the register's own two bytes, the low one first, bring it to zero. */
  lemma ClosingIsUnique(r: Word, low: Byte, high: Byte)
    ensures Checksum(r, [low, high]) == 0 <==> low == r % 256 && high == r / 256
  {
    ClosingWorks(r);
    var mine, right := [low, high], [r % 256, r / 256];
    if mine != right {
      ChecksumIsSerial(r, mine);
      ChecksumIsSerial(r, right);
      if FrameBits(mine) == FrameBits(right) {
        BitsTellFrame(mine, right);
      } else {
        WindowIsInjective(r, FrameBits(mine), FrameBits(right));
      }
    }
  }

  lemma {:induction false} ChecksumJoins(r: Word, a: seq<Byte>, b: seq<Byte>)
    ensures Checksum(r, a + b) == Checksum(Checksum(r, a), b)
    decreases |a|
  {
    if a == [] {
      assert a + b == b;
    } else {
      assert (a + b)[1..] == a[1..] + b;
      ChecksumJoins(Step(r, a[0]), a[1..], b);
    }
  }

  /** A frame is accepted exactly when it ends in the checksum of what comes before, low byte first. */
  lemma AcceptedExactly(frame: seq<Byte>)
    requires |frame| > 5
    ensures var n := |frame|; var crc := Checksum(INIT, frame[..n - 2]);
            Accepts(frame) <==> frame[n - 2] == crc % 256 && frame[n - 1] == crc / 256
  {
    var n := |frame|;
    var crc := Checksum(INIT, frame[..n - 2]);
    assert frame == frame[..n - 2] + [frame[n - 2], frame[n - 1]];
    ChecksumJoins(INIT, frame[..n - 2], [frame[n - 2], frame[n - 1]]);
    ClosingIsUnique(crc, frame[n - 2], frame[n - 1]);
  }

  // ---------------------------------------------------------------------------------------------------
  // A dead line
  // ---------------------------------------------------------------------------------------------------

  predicate AllZero(data: seq<Byte>) {
    forall i :: 0 <= i < |data| ==> data[i] == 0
  }

  lemma {:induction false} ShiftsKeepNonzero(r: Word, n: nat)
    requires r != 0
    ensures Shifts(r, n) != 0
    decreases n
  {
    if n > 0 {
      if Shift(r) == 0 {
        ShiftIsInjective(r, 0);
      }
      ShiftsKeepNonzero(Shift(r), n - 1);
    }
  }

  lemma {:induction false} ZerosKeepNonzero(r: Word, data: seq<Byte>)
    requires r != 0 && AllZero(data)
    ensures Checksum(r, data) != 0
    decreases |data|
  {
    if data != [] {
      WithZero(r);
      ShiftsKeepNonzero(r, 8);
      ZerosKeepNonzero(Step(r, data[0]), data[1..]);
    }
  }

  /** Main result: no frame of zeros, of any length, is accepted. */
  lemma ZerosAreRejected(frame: seq<Byte>)
    requires AllZero(frame)
    ensures !Accepts(frame)
  {
    ZerosKeepNonzero(INIT, frame);
  }

  // ---------------------------------------------------------------------------------------------------
  // Errors on the line
  // ---------------------------------------------------------------------------------------------------

  /** The bits of two frames are the same outside the `k` bits from `i` on. */
  predicate SameOutside(f: seq<Byte>, g: seq<Byte>, i: nat, k: nat)
    requires |f| == |g| && i + k <= 8 * |f|
  {
    && FrameBits(f)[..i] == FrameBits(g)[..i]
    && FrameBits(f)[i + k..] == FrameBits(g)[i + k..]
  }

  /** Main result: no burst of up to sixteen bits, wherever it falls, turns one accepted frame into another. */
  lemma BurstIsRejected(f: seq<Byte>, g: seq<Byte>, i: nat, k: nat)
    requires |f| == |g| && f != g && k <= 16 && i + k <= 8 * |f| && SameOutside(f, g, i, k)
    requires Accepts(f)
    ensures !Accepts(g)
  {
    var p, q := FrameBits(f), FrameBits(g);
    var a, b := p[i..i + k], q[i..i + k];
    assert p == p[..i] + a + p[i + k..] && q == q[..i] + b + q[i + k..];
    if a == b {
      BitsTellFrame(f, g);
    } else {
      ChecksumIsSerial(INIT, f);
      ChecksumIsSerial(INIT, g);
      BurstIsFound(INIT, p[..i], a, b, p[i + k..]);
    }
  }

  /** Main result: an odd number of wrong bits, wherever they are, is rejected. */
  lemma OddErrorsAreRejected(f: seq<Byte>, g: seq<Byte>)
    requires |f| == |g| && Errors(FrameBits(f), FrameBits(g)) % 2 == 1
    requires Accepts(f)
    ensures !Accepts(g)
  {
    ChecksumIsSerial(INIT, f);
    ChecksumIsSerial(INIT, g);
    OddErrorsAreFound(INIT, FrameBits(f), FrameBits(g));
  }

  lemma {:induction false} FrameBitsJoin(a: seq<Byte>, b: seq<Byte>)
    ensures FrameBits(a + b) == FrameBits(a) + FrameBits(b)
    decreases |a|
  {
    if a == [] {
      assert a + b == b;
    } else {
      assert (a + b)[1..] == a[1..] + b;
      FrameBitsJoin(a[1..], b);
    }
  }

  /** One wrong byte, or two neighbouring ones, are such a burst. */
  lemma NeighboursAreRejected(f: seq<Byte>, g: seq<Byte>, i: nat)
    requires |f| == |g| && f != g && i + 2 <= |f|
    requires f[..i] == g[..i] && f[i + 2..] == g[i + 2..]
    requires Accepts(f)
    ensures !Accepts(g)
  {
    BitsAt(f, i);
    BitsAt(g, i);
    BitsAt(f, i + 2);
    BitsAt(g, i + 2);
    BurstIsRejected(f, g, 8 * i, 16);
  }

  lemma BitsSplit(f: seq<Byte>, i: nat)
    requires i <= |f|
    ensures FrameBits(f) == FrameBits(f[..i]) + FrameBits(f[i..])
  {
    FrameBitsJoin(f[..i], f[i..]);
    assert f == f[..i] + f[i..];
  }

  lemma Parts<T>(whole: seq<T>, p: seq<T>, q: seq<T>, n: nat)
    requires whole == p + q && |p| == n
    ensures whole[..n] == p && whole[n..] == q
  {
  }

  lemma BitsAt(f: seq<Byte>, i: nat)
    requires i <= |f|
    ensures FrameBits(f)[..8 * i] == FrameBits(f[..i])
    ensures FrameBits(f)[8 * i..] == FrameBits(f[i..])
  {
    BitsSplit(f, i);
    Parts(FrameBits(f), FrameBits(f[..i]), FrameBits(f[i..]), 8 * i);
  }

  // ---------------------------------------------------------------------------------------------------
  // The driver
  // ---------------------------------------------------------------------------------------------------

  function Count(n: int): nat {
    if n < 0 then 0 else n
  }

  /** The inner loop of `Crc`. */
  method ShiftEight(r: Word) returns (crc: Word)
    ensures crc == Shifts(r, 8)
  {
    crc := r;
    var j := 0;
    while j < 8
      invariant 0 <= j <= 8 && Shifts(crc, 8 - j) == Shifts(r, 8)
    {
      if crc % 2 == 1 {
        crc := crc / 2;
        crc := Mixed(crc, POLY);
      } else {
        crc := crc / 2;
      }
      j := j + 1;
    }
  }

  method Crc(data: array<Byte>, n: int) returns (crc: Word)
    requires n <= data.Length
    ensures crc == Checksum(INIT, data[..Count(n)])
    ensures n <= 0 ==> crc == 0xffff
    ensures data[..Count(n)] == [18, 35, 52, 86] ==> crc == 26722
  {
    crc := INIT;
    var i := 0;
    while i < n
      invariant 0 <= i <= Count(n)
      invariant crc == Checksum(INIT, data[..i])
    {
      ChecksumNext(INIT, data[..i], data[i]);
      assert data[..i + 1] == data[..i] + [data[i]];
      crc := ShiftEight(Mixed(crc, data[i]));
      i := i + 1;
    }
    CrcValues.FourBytes(data[..i], crc);
  }

  /** What the two comparisons of the driver accept is what leaves nothing of the checksum. */
  method CrcCheck(data: array<Byte>, n: int) returns (ok: bool)
    requires n <= data.Length
    ensures ok == Accepts(data[..Count(n)])
  {
    if n <= 5 {
      return false;
    }
    var crc := Crc(data, n - 2);
    AcceptedExactly(data[..n]);
    assert data[..n][..n - 2] == data[..n - 2];
    if data[n - 2] != crc % 256 {
      return false;
    }
    if data[n - 1] != crc / 256 {
      return false;
    }
    return true;
  }

  const READ_REGS: Byte := 4

  /** How many bytes of a message the line takes. */
  type Line = seq<Byte> -> int

  lemma RequestCloses(frame: seq<Byte>, crc: Word)
    requires |frame| == 8 && frame[1] == READ_REGS && frame[2] == frame[3] == frame[4] == 0 && frame[5] == 10
    requires crc == Checksum(INIT, frame[..6]) && frame[6] == crc % 256 && frame[7] == crc / 256
    ensures Accepts(frame)
    ensures frame[0] == 1 ==> frame[6] == 0x70 && frame[7] == 0x0d
  {
    AcceptedExactly(frame);
    CrcValues.RequestValue(frame[..6], crc);
    InTwoBytes(crc, 0x70, 0x0d);
  }

  lemma InTwoBytes(crc: Word, low: Byte, high: Byte)
    ensures crc == 256 * high + low ==> crc % 256 == low && crc / 256 == high
  {
  }

  /** The request for all ten registers is a frame that the check accepts; it is true that the line took it all. */
  method Request(addr: Byte, tx: Line) returns (sent: bool, msg: array<Byte>)
    ensures fresh(msg) && msg.Length == 8
    ensures msg[..6] == [addr, READ_REGS, 0, 0, 0, 10]
    ensures Accepts(msg[..])
    ensures addr == 1 ==> msg[6] == 0x70 && msg[7] == 0x0d
    ensures sent <==> tx(msg[..]) == |msg[..]|
  {
    msg := new Byte[8];
    msg[0], msg[1], msg[2], msg[3], msg[4], msg[5] := addr, READ_REGS, 0, 0, 0, 10;
    var crc := Crc(msg, 6);
    ghost var head := msg[..6];
    msg[6] := crc % 256;
    msg[7] := crc / 256;
    assert msg[..][..6] == head;
    RequestCloses(msg[..], crc);
    sent := tx(msg[..]) == msg.Length;
  }
}
