/** The bit-banging master: it sets the two lines, one at a time, and reads SDA back while SCL is high. */
module I2cMaster {
  import opened Bytes
  import opened Wrappers
  import opened I2cBus

  /** Names the byte on its way out; until it is named, the fact below is not unfolded. */
  ghost predicate NameByte(wr: Byte, k: int) {
    true
  }

  /** `n` bits of `wr` are left in `out`, the others are done, and `rd` has what was read of them. */
  ghost predicate Shifting(wr: Byte, out: Byte, n: nat, rd: Byte, done: seq<Symbol>) {
    forall k {:trigger NameByte(wr, k)} :: NameByte(wr, k) ==>
      done + Bits(out, n) == Bits(wr, 8) && Assemble(Bits(out, n), rd) == Assemble(Bits(wr, 8), 0)
  }

  lemma NoBitDone(wr: Byte)
    ensures Shifting(wr, wr, 8, 0, [])
  {
  }

  lemma BitDone(wr: Byte, out: Byte, n: nat, rd: Byte, done: seq<Symbol>)
    requires Shifting(wr, out, n + 1, rd, done)
    ensures Shifting(wr, Shifted(out), n, TakeIn(rd, Top(out)), done + [Bit(Top(out))])
  {
    assert NameByte(wr, 0);
    OneBit(out, n, rd);
    Regroup(done, [Bit(Top(out))], Bits(Shifted(out), n));
  }

  lemma AllBitsDone(wr: Byte, out: Byte, rd: Byte, done: seq<Symbol>)
    requires Shifting(wr, out, 0, rd, done)
    ensures done == Bits(wr, 8) && rd == wr
  {
    assert NameByte(wr, 0);
    assert done + [] == done;
    Reassembled(wr);
  }

  ghost predicate NameBytes(bytes: seq<Byte>, k: int) {
    true
  }

  /** The bytes up to the `i`th have been sent, all but perhaps that one acknowledged. */
  ghost predicate Sending(bytes: seq<Byte>, slave: Slave, i: nat, done: seq<Symbol>)
    requires i < |bytes|
  {
    forall k {:trigger NameBytes(bytes, k)} :: NameBytes(bytes, k) ==>
      && (forall j :: 0 <= j < i ==> slave(j))
      && done + (if slave(i) then Sent(bytes, slave, i + 1) else []) == Sent(bytes, slave, 0)
  }

  lemma FirstSent(bytes: seq<Byte>, slave: Slave)
    requires bytes != []
    ensures Sending(bytes, slave, 0, ByteSymbols(bytes[0], slave(0)))
  {
  }

  lemma NextSent(bytes: seq<Byte>, slave: Slave, i: nat, done: seq<Symbol>)
    requires i + 1 < |bytes| && Sending(bytes, slave, i, done) && slave(i)
    ensures Sending(bytes, slave, i + 1, done + ByteSymbols(bytes[i + 1], slave(i + 1)))
  {
    assert NameBytes(bytes, 0);
    Regroup(done, ByteSymbols(bytes[i + 1], slave(i + 1)), if slave(i + 1) then Sent(bytes, slave, i + 2) else []);
  }

  lemma LastSent(bytes: seq<Byte>, slave: Slave, i: nat, done: seq<Symbol>)
    requires i < |bytes| && Sending(bytes, slave, i, done) && (i == |bytes| - 1 || !slave(i))
    ensures done == Sent(bytes, slave, 0) && (slave(i) <==> AllAcked(bytes, slave))
  {
    assert NameBytes(bytes, 0);
    assert done + [] == done;
  }

  class BitBangI2c {
    var scl: bool
    var sda: bool
    /** The slave holds SDA low or lets it go; a transfer's bytes are counted to ask it for its answers. */
    var slaveSda: bool
    const slave: Slave
    var wave: seq<Lines>

    /** The wires: SDA is low when either side holds it low. */
    function Wires(): Lines
      reads this
    {
      Lines(scl, sda && slaveSda)
    }

    /** What an ideal receiver has made of `wave`. */
    ghost var rx: Receiver

    ghost predicate Valid()
      reads this
    {
      Receives(wave, rx) && rx.lines == Wires()
    }

    /** Between two bits: SCL low, nothing sampled, the slave silent. */
    ghost predicate Between()
      reads this
    {
      Valid() && !scl && slaveSda && rx.sample.NoSample?
    }

    constructor (slave: Slave)
      ensures Valid() && Wires() == IDLE && slaveSda && wave == [] && this.slave == slave
    {
      this.slave := slave;
      scl := true;
      sda := true;
      slaveSda := true;
      wave := [];
      rx := Receiver(IDLE, NoSample, []);
    }

    method SetScl(level: bool)
      requires Valid()
      modifies this`scl, this`wave, this`rx
      ensures Valid() && scl == level && rx == Hear(old(rx), Wires())
      ensures wave == old(wave) + [Wires()]
    {
      scl := level;
      ReceivesNext(wave, rx, Wires());
      rx := Hear(rx, Wires());
      wave := wave + [Wires()];
    }

    method SetSda(level: bool)
      requires Valid()
      modifies this`sda, this`wave, this`rx
      ensures Valid() && sda == level && rx == Hear(old(rx), Wires())
      ensures wave == old(wave) + [Wires()]
    {
      sda := level;
      ReceivesNext(wave, rx, Wires());
      rx := Hear(rx, Wires());
      wave := wave + [Wires()];
    }

    method SlaveSets(level: bool)
      requires Valid()
      modifies this`slaveSda, this`wave, this`rx
      ensures Valid() && slaveSda == level && rx == Hear(old(rx), Wires())
      ensures wave == old(wave) + [Wires()]
    {
      slaveSda := level;
      ReceivesNext(wave, rx, Wires());
      rx := Hear(rx, Wires());
      wave := wave + [Wires()];
    }

    method Start()
      requires Valid() && Wires() == IDLE && slaveSda
      modifies this
      ensures Between() && rx.heard == old(rx.heard) + [I2cBus.Start]
    {
      SetScl(true);
      SetSda(false);
      SetScl(false);
    }

    /** One bit, read back while SCL is high; `answer` is what the slave does to the wire meanwhile. */
    method BitIo(bit: bool, answer: bool) returns (d: bool)
      requires Valid() && !scl && rx.sample.NoSample? && slaveSda == answer
      modifies this`scl, this`sda, this`wave, this`rx
      ensures Valid() && !scl && rx.sample.NoSample?
      ensures d == (bit && answer) && rx.heard == old(rx.heard) + [Bit(d)]
    {
      SetSda(bit);
      SetScl(true);
      d := Wires().sda;
      SetScl(false);
    }

    /** The acknowledge bit of the `k`th byte. The slave takes the wire after the byte and lets it go after
        the bit, both while SCL is low. */
    method Ack(k: nat) returns (a: bool)
      requires Between()
      modifies this
      ensures Between()
      ensures a == slave(k) && rx.heard == old(rx.heard) + [Bit(!a)]
    {
      SetSda(true);
      SlaveSets(!slave(k));
      var d := BitIo(true, !slave(k));
      SlaveSets(true);
      return !d;
    }

    /** One turn of the loop of `IoBits`: the top bit of `wr` out, and one back into `rd`. */
    method IoBit(wr: Byte, rd: Byte) returns (out: Byte, back: Byte)
      requires Between()
      modifies this`scl, this`sda, this`wave, this`rx
      ensures Between() && rx.heard == old(rx.heard) + [Bit(Top(wr))]
      ensures out == Shifted(wr) && back == TakeIn(rd, Top(wr))
    {
      var d := BitIo(Top(wr), true);
      out := Shifted(wr);
      back := Shifted(rd);
      if d {
        back := back + 1;
      }
    }

    /** The eight bits of a byte out, and the same back in. */
    method IoBits(wr: Byte) returns (rd: Byte)
      requires Between()
      modifies this`scl, this`sda, this`wave, this`rx
      ensures Between() && rx.heard == old(rx.heard) + Bits(wr, 8) && rd == wr
    {
      var out := wr;
      rd := 0;
      ghost var done: seq<Symbol> := [];
      NoBitDone(wr);
      var i: nat := 0;
      while i < 8
        invariant 0 <= i <= 8 && Between()
        invariant rx.heard == old(rx.heard) + done && Shifting(wr, out, 8 - i, rd, done)
      {
        ghost var bit := Bit(Top(out));
        BitDone(wr, out, 8 - i - 1, rd, done);
        Regroup(old(rx.heard), done, [bit]);
        out, rd := IoBit(out, rd);
        done := done + [bit];
        i := i + 1;
      }
      AllBitsDone(wr, out, rd, done);
    }

    /** One byte out, the same byte back, and its acknowledge. */
    method Io(wr: Byte, k: nat) returns (rd: Byte, ack: bool)
      requires Between()
      modifies this
      ensures Between()
      ensures ack == slave(k) && rx.heard == old(rx.heard) + ByteSymbols(wr, ack)
      ensures rd == wr
    {
      rd := IoBits(wr);
      ack := Ack(k);
      Regroup(old(rx.heard), Bits(wr, 8), [Bit(!ack)]);
    }

    method Stop()
      requires Between()
      modifies this
      ensures Valid() && Wires() == IDLE && slaveSda
      ensures rx.heard == old(rx.heard) + [I2cBus.Stop]
    {
      SetSda(false);
      SetScl(true);
      SetSda(true);
    }

    /** The address byte and the data, until one byte is not acknowledged. */
    method WriteBytes(cmd: Byte, data: seq<Byte>) returns (ack: bool)
      requires Between()
      modifies this
      ensures Between()
      ensures ack == AllAcked([cmd] + data, slave)
      ensures rx.heard == old(rx.heard) + Sent([cmd] + data, slave, 0)
    {
      ghost var bytes := [cmd] + data;
      ghost var before := rx.heard;
      var rd;
      rd, ack := Io(cmd, 0);
      ghost var done := ByteSymbols(cmd, ack);
      FirstSent(bytes, slave);
      var i := 0;
      while i < |data| && ack
        invariant 0 <= i <= |data| && Between() && ack == slave(i)
        invariant rx.heard == before + done && Sending(bytes, slave, i, done)
      {
        rd, ack := Io(data[i], i + 1);
        NextSent(bytes, slave, i, done);
        Regroup(before, done, ByteSymbols(data[i], ack));
        done := done + ByteSymbols(data[i], ack);
        i := i + 1;
      }
      LastSent(bytes, slave, i, done);
    }

    /** Main result: from an idle bus, whatever went before, the receiver hears START, the address with a
        write bit, the data up to the first byte that is not acknowledged, and STOP, and decodes these bytes;
        the bus is idle again, SDA has moved under a high SCL exactly twice, and the result is the length if
        every byte was acknowledged, and else 0. */
    method Write(addr: Byte, data: seq<Byte>) returns (n: int)
      requires Valid() && Wires() == IDLE && slaveSda
      modifies this
      ensures Valid() && Wires() == IDLE && slaveSda
      ensures rx.heard == old(rx.heard) + ([I2cBus.Start] + Sent([Shifted(addr)] + data, slave, 0) + [I2cBus.Stop])
      ensures Receive(wave).heard == rx.heard
      ensures Decode(rx.heard[|old(rx.heard)|..]) ==
              Some(([Shifted(addr)] + data)[..SentCount([Shifted(addr)] + data, slave, 0)])
      ensures MarkCount(wave) == MarkCount(old(wave)) + 2
      ensures n == if AllAcked([Shifted(addr)] + data, slave) then |data| else 0
    {
      ghost var bytes := [Shifted(addr)] + data;
      MarksHeard(wave, rx);
      Start();
      var ok := WriteBytes(Shifted(addr), data);
      Stop();
      MarksHeard(wave, rx);
      SentAreBits(bytes, slave, 0);
      TwoConditions(old(rx.heard), Sent(bytes, slave, 0));
      FramedTransfer(old(rx.heard), Sent(bytes, slave, 0));
      WrittenIsRead(bytes, slave);
      return if ok then |data| else 0;
    }
  }

  lemma MarksHeard(wave: seq<Lines>, rx: Receiver)
    requires Receives(wave, rx)
    ensures Receive(wave) == rx && MarkCount(wave) == Conditions(rx.heard)
  {
    assert Name(wave, 0);
    MarksAreConditions(wave);
  }

  predicate BitsOnly(heard: seq<Symbol>) {
    forall i :: 0 <= i < |heard| ==> heard[i].Bit?
  }

  lemma TwoConditions(before: seq<Symbol>, bits: seq<Symbol>)
    requires BitsOnly(bits)
    ensures Conditions(before + [Start] + bits + [Stop]) == Conditions(before) + 2
  {
    ConditionsNext(before, Start);
    OnlyBits(before + [Start], bits);
    ConditionsNext(before + [Start] + bits, Stop);
  }

  lemma FramedTransfer(before: seq<Symbol>, bits: seq<Symbol>)
    ensures before + [Start] + bits + [Stop] == before + ([Start] + bits + [Stop])
    ensures (before + ([Start] + bits + [Stop]))[|before|..] == [Start] + bits + [Stop]
  {
  }

  lemma {:induction false} OnlyBits(heard: seq<Symbol>, more: seq<Symbol>)
    requires BitsOnly(more)
    ensures Conditions(heard + more) == Conditions(heard)
    decreases |more|
  {
    if more == [] {
      assert heard + more == heard;
    } else {
      var front := more[..|more| - 1];
      OnlyBits(heard, front);
      assert heard + more == heard + front + [more[|more| - 1]];
      ConditionsNext(heard + front, more[|more| - 1]);
    }
  }

  lemma {:induction false} SentAreBits(bytes: seq<Byte>, slave: Slave, k: nat)
    requires k <= |bytes|
    ensures BitsOnly(Sent(bytes, slave, k))
    decreases |bytes| - k
  {
    if k < |bytes| {
      BitsAreBits(bytes[k], 8);
      if slave(k) {
        SentAreBits(bytes, slave, k + 1);
      }
    }
  }

  lemma {:induction false} BitsAreBits(b: Byte, n: nat)
    ensures BitsOnly(Bits(b, n))
    decreases n
  {
    if n > 0 {
      BitsAreBits(Shifted(b), n - 1);
    }
  }

  /** The bytes an ideal receiver reads from its symbols: eight bits and an acknowledge, until STOP or a NAK. */
  function ReadBytes(heard: seq<Symbol>): seq<Byte>
    decreases |heard|
  {
    if |heard| < 9 then []
    else [Assemble(heard[..8], 0)] + (if heard[8] == Bit(false) then ReadBytes(heard[9..]) else [])
  }

  /** A whole transfer as a receiver takes it: START, bytes and STOP. */
  function Decode(heard: seq<Symbol>): Option<seq<Byte>> {
    var end := |heard| - 1;
    if end >= 1 && heard[0] == Start && heard[end] == Stop && BitsOnly(heard[1..end])
    then Some(ReadBytes(heard[1..end]))
    else None
  }

  /** The number of bytes from the `k`th on that get onto the bus. */
  function SentCount(bytes: seq<Byte>, slave: Slave, k: nat): (n: nat)
    requires k <= |bytes|
    ensures k + n <= |bytes|
    decreases |bytes| - k
  {
    if k == |bytes| then 0 else if slave(k) then 1 + SentCount(bytes, slave, k + 1) else 1
  }

  ghost predicate NameSymbols(heard: seq<Symbol>, k: int) {
    true
  }

  /** A receiver reads these bytes; until the symbols are named, this is not unfolded. */
  ghost predicate ReadAs(heard: seq<Symbol>, bytes: seq<Byte>) {
    forall k {:trigger NameSymbols(heard, k)} :: NameSymbols(heard, k) ==> ReadBytes(heard) == bytes
  }

  /** A byte on the wire and what comes after it. */
  ghost predicate Framed(b: Byte, ack: bool, tail: seq<Symbol>, heard: seq<Symbol>) {
    forall k {:trigger NameSymbols(heard, k)} :: NameSymbols(heard, k) ==> heard == ByteSymbols(b, ack) + tail
  }

  lemma OneByteRead(b: Byte, ack: bool, tail: seq<Symbol>, rest: seq<Byte>) returns (heard: seq<Symbol>)
    requires if ack then ReadAs(tail, rest) else rest == []
    ensures Framed(b, ack, tail, heard) && ReadAs(heard, [b] + rest)
  {
    heard := ByteSymbols(b, ack) + tail;
    Reassembled(b);
    assert NameSymbols(tail, 0);
    assert heard[..8] == Bits(b, 8) && heard[8] == Bit(!ack) && heard[9..] == tail;
  }

  lemma FramedIsSent(bytes: seq<Byte>, slave: Slave, k: nat, tail: seq<Symbol>, heard: seq<Symbol>)
    requires k < |bytes| && Framed(bytes[k], slave(k), tail, heard)
    requires tail == if slave(k) then Sent(bytes, slave, k + 1) else []
    ensures heard == Sent(bytes, slave, k)
  {
    assert NameSymbols(heard, 0);
  }

  lemma FirstAndRest(bytes: seq<Byte>, k: nat, n: nat)
    requires k + 1 + n <= |bytes|
    ensures [bytes[k]] + bytes[k + 1..k + 1 + n] == bytes[k..k + (1 + n)]
  {
  }

  /** The receiver gets back the bytes that were sent. */
  lemma {:induction false} SentIsRead(bytes: seq<Byte>, slave: Slave, k: nat)
    requires k <= |bytes|
    ensures ReadAs(Sent(bytes, slave, k), bytes[k..k + SentCount(bytes, slave, k)])
    decreases |bytes| - k
  {
    if k < |bytes| {
      var tail := if slave(k) then Sent(bytes, slave, k + 1) else [];
      var n := if slave(k) then SentCount(bytes, slave, k + 1) else 0;
      if slave(k) {
        SentIsRead(bytes, slave, k + 1);
      }
      var heard := OneByteRead(bytes[k], slave(k), tail, bytes[k + 1..k + 1 + n]);
      FramedIsSent(bytes, slave, k, tail, heard);
      FirstAndRest(bytes, k, n);
    }
  }

  lemma WrittenIsRead(bytes: seq<Byte>, slave: Slave)
    ensures Decode([Start] + Sent(bytes, slave, 0) + [Stop]) == Some(bytes[..SentCount(bytes, slave, 0)])
  {
    var sent := Sent(bytes, slave, 0);
    var heard := [Start] + sent + [Stop];
    assert heard[1..|heard| - 1] == sent;
    SentAreBits(bytes, slave, 0);
    SentIsRead(bytes, slave, 0);
    assert NameSymbols(sent, 0);
  }

  /** They are all of the bytes, or those up to the first that the slave does not acknowledge. */
  lemma {:induction false} SentUpToNak(bytes: seq<Byte>, slave: Slave, k: nat)
    requires k <= |bytes|
    ensures var end := k + SentCount(bytes, slave, k);
            && (forall i :: k <= i < end - 1 ==> slave(i))
            && (end < |bytes| ==> end > k && !slave(end - 1))
    decreases |bytes| - k
  {
    if k < |bytes| && slave(k) {
      SentUpToNak(bytes, slave, k + 1);
    }
  }
}
