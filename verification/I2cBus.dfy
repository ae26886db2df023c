/**
 The two-wire bus as a receiver sees it. A receiver watches the levels of both wires; SDA moving while SCL is
 high is a START or a STOP, anything else is bits, taken when SCL rises and kept when it falls again.
 */
module I2cBus {
  import opened Bytes

  datatype Lines = Lines(scl: bool, sda: bool)

  const IDLE := Lines(true, true)

  datatype Symbol = Start | Bit(b: bool) | Stop

  datatype Sample = NoSample | Sampled(b: bool)

  /** What a receiver has made of the wires so far. */
  datatype Receiver = Receiver(lines: Lines, sample: Sample, heard: seq<Symbol>)

  function Hear(r: Receiver, now: Lines): Receiver {
    if r.lines.scl && now.scl then
      if r.lines.sda && !now.sda then Receiver(now, NoSample, r.heard + [Start])
      else if !r.lines.sda && now.sda then Receiver(now, NoSample, r.heard + [Stop])
      else r.(lines := now)
    else if !r.lines.scl && now.scl then r.(lines := now, sample := Sampled(now.sda))
    else if r.lines.scl && !now.scl && r.sample.Sampled? then Receiver(now, NoSample, r.heard + [Bit(r.sample.b)])
    else r.(lines := now)
  }

  /** The receiver after a waveform that begins on an idle bus. */
  function Receive(wave: seq<Lines>): Receiver {
    if wave == [] then Receiver(IDLE, NoSample, []) else Hear(Receive(wave[..|wave| - 1]), wave[|wave| - 1])
  }

  lemma ReceiveNext(wave: seq<Lines>, now: Lines)
    ensures Receive(wave + [now]) == Hear(Receive(wave), now)
  {
  }

  /** Names the waveform that is to be received; until it is named, the fact below is not unfolded. */
  ghost predicate Name(wave: seq<Lines>, k: int) {
    true
  }

  ghost predicate Receives(wave: seq<Lines>, r: Receiver) {
    forall k {:trigger Name(wave, k)} :: Name(wave, k) ==> Receive(wave) == r
  }

  lemma ReceivesNext(wave: seq<Lines>, r: Receiver, now: Lines)
    requires Receives(wave, r)
    ensures Receives(wave + [now], Hear(r, now))
  {
    assert Name(wave, 0);
    ReceiveNext(wave, now);
  }

  lemma Regroup<T>(a: seq<T>, b: seq<T>, c: seq<T>)
    ensures (a + b) + c == a + (b + c)
  {
  }

  /** SDA moves between two samples while SCL stays high. */
  predicate Marks(a: Lines, b: Lines) {
    a.scl && b.scl && a.sda != b.sda
  }

  function MarkCount(wave: seq<Lines>): nat {
    if wave == [] then 0
    else MarkCount(wave[..|wave| - 1]) + (if Marks(Receive(wave[..|wave| - 1]).lines, wave[|wave| - 1]) then 1 else 0)
  }

  function Conditions(heard: seq<Symbol>): nat {
    if heard == [] then 0 else Conditions(heard[..|heard| - 1]) + (if heard[|heard| - 1].Bit? then 0 else 1)
  }

  lemma ConditionsNext(heard: seq<Symbol>, s: Symbol)
    ensures Conditions(heard + [s]) == Conditions(heard) + (if s.Bit? then 0 else 1)
  {
  }

  /** Every move of SDA under a high SCL is heard as a START or a STOP. */
  lemma {:induction false} MarksAreConditions(wave: seq<Lines>)
    ensures MarkCount(wave) == Conditions(Receive(wave).heard)
    decreases |wave|
  {
    if wave != [] {
      var r := Receive(wave[..|wave| - 1]);
      MarksAreConditions(wave[..|wave| - 1]);
      forall s ensures Conditions(r.heard + [s]) == Conditions(r.heard) + (if s.Bit? then 0 else 1) {
        ConditionsNext(r.heard, s);
      }
    }
  }

  // ---------------------------------------------------------------------------------------------------
  // Bytes
  // ---------------------------------------------------------------------------------------------------

  /** The bit that `b & 0x80` tests. */
  predicate Top(b: Byte) {
    b >= 128
  }

  /** `(uint8_t) (b << 1)` */
  function Shifted(b: Byte): Byte {
    if Top(b) then 2 * b - 256 else 2 * b
  }

  /** The first `n` bits of a byte, the most significant first. */
  function Bits(b: Byte, n: nat): (s: seq<Symbol>)
    ensures |s| == n
    decreases n, b
  {
    if n == 0 then [] else [Bit(Top(b))] + Bits(Shifted(b), n - 1)
  }

  /** A byte shifted left to take in one more bit. */
  function TakeIn(acc: Byte, bit: bool): Byte {
    Shifted(acc) + (if bit then 1 else 0)
  }

  /** A receiver's byte from its bits. */
  function Assemble(bits: seq<Symbol>, acc: Byte): Byte {
    if bits == [] then acc else Assemble(bits[1..], TakeIn(acc, bits[0] == Bit(true)))
  }

  lemma OneBit(b: Byte, n: nat, acc: Byte)
    ensures Assemble(Bits(b, n + 1), acc) == Assemble(Bits(Shifted(b), n), TakeIn(acc, Top(b)))
  {
  }

  /** The same without the symbols: `n` bits of `b` go over into `acc`. */
  function MoveOver(b: Byte, n: nat, acc: Byte): Byte
    decreases n, b
  {
    if n == 0 then acc else MoveOver(Shifted(b), n - 1, TakeIn(acc, Top(b)))
  }

  lemma {:induction false} AssembleMoves(b: Byte, n: nat, acc: Byte)
    ensures Assemble(Bits(b, n), acc) == MoveOver(b, n, acc)
    decreases n
  {
    if n > 0 {
      OneBit(b, n - 1, acc);
      AssembleMoves(Shifted(b), n - 1, TakeIn(acc, Top(b)));
    }
  }

  /** Two to the `n`, spelt out to keep the arithmetic linear. */
  function Pow(n: nat): nat {
    if n == 0 then 1 else if n == 1 then 2 else if n == 2 then 4 else if n == 3 then 8
    else if n == 4 then 16 else if n == 5 then 32 else if n == 6 then 64 else if n == 7 then 128 else 256
  }

  lemma OneMove(b: Byte, n: nat, q: nat, acc: Byte)
    requires 0 < n <= 8 && q < Pow(n) && b == q * Pow(8 - n) && acc < Pow(8 - n)
    ensures Top(b) == (q >= Pow(n - 1)) && Pow(n) == 2 * Pow(n - 1)
    ensures TakeIn(acc, Top(b)) == 2 * acc + (if Top(b) then 1 else 0) < Pow(8 - (n - 1))
    ensures Shifted(b) == (if Top(b) then q - Pow(n - 1) else q) * Pow(8 - (n - 1))
  {
  }

  lemma {:induction false} AllMoves(b: Byte, n: nat, q: nat, acc: Byte)
    requires n <= 8 && q < Pow(n) && b == q * Pow(8 - n) && acc < Pow(8 - n)
    ensures MoveOver(b, n, acc) == acc * Pow(n) + q
    decreases n
  {
    if n > 0 {
      OneMove(b, n, q, acc);
      AllMoves(Shifted(b), n - 1, if Top(b) then q - Pow(n - 1) else q, TakeIn(acc, Top(b)));
      Doubled(acc, Pow(n - 1), if Top(b) then 1 else 0);
    }
  }

  lemma Doubled(a: int, p: int, d: int)
    ensures (2 * a + d) * p == a * (2 * p) + d * p
  {
  }

  /** A receiver gets a byte back from its bits. */
  lemma Reassembled(b: Byte)
    ensures Assemble(Bits(b, 8), 0) == b
  {
    AssembleMoves(b, 8, 0);
    AllMoves(b, 8, b, 0);
  }

  /** The slave's answers: whether it acknowledges the `k`th byte of a transfer. */
  type Slave = nat -> bool

  /** A byte and its acknowledge bit, which is low for an ACK. */
  function ByteSymbols(b: Byte, ack: bool): seq<Symbol> {
    Bits(b, 8) + [Bit(!ack)]
  }

  /** The bytes from the `k`th on, up to and with the first that is not acknowledged. */
  function Sent(bytes: seq<Byte>, slave: Slave, k: nat): seq<Symbol>
    requires k <= |bytes|
    decreases |bytes| - k
  {
    if k == |bytes| then []
    else ByteSymbols(bytes[k], slave(k)) + (if slave(k) then Sent(bytes, slave, k + 1) else [])
  }

  predicate AllAcked(bytes: seq<Byte>, slave: Slave) {
    forall k :: 0 <= k < |bytes| ==> slave(k)
  }
}
