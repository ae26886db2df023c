/** The ring buffer object: it does what RingModel says of its slots and indices, whether or not it is guarded. */
module RingBuffer {
  import opened BitXor
  import opened Modulo
  import opened RingModel

  class RingBuffer<T(0)> {
    const data: array<T>
    var rd: nat
    var wr: nat
    const size: nat
    const mask: nat
    /** The number of bits in an index. */
    const width: nat

    ghost function Value(): Ring<T>
      reads this, data
    {
      Ring(data[..], rd, wr, width)
    }

    ghost predicate Valid()
      reads this, data
    {
      Value().Valid() && size == data.Length && mask == size - 1
    }

    constructor (n: nat, width: nat)
      requires n < Pow2(width) && n != 0 && And(n, Negated(n, width)) == n
      ensures Valid() && IsNew(Value()) && size == n && this.width == width && fresh(data)
    {
      PowerTest(n, width);
      ghost var k: nat :| n == Pow2(k);
      if k >= width {
        PowersDivide(width, k);
        AtLeastOnce(Pow2(width), Pow2(k - width));
      }
      data := new T[n];
      rd, wr := 0, 0;
      size := n;
      mask := n - 1;
      this.width := width;
    }

    method Empty() returns (empty: bool)
      requires Valid()
      ensures empty == Value().Empty()
    {
      return rd == wr;
    }

    method Size() returns (n: nat)
      requires Valid()
      ensures n == Value().Size()
    {
      return Difference(wr, rd, Pow2(width));
    }

    method Full() returns (full: bool)
      requires Valid()
      ensures full == Value().Full()
    {
      var n := Size();
      return n == size;
    }

    method Push(val: T)
      requires Valid()
      modifies this`wr, data
      ensures Valid() && Value() == RingModel.Push(old(Value()), val)
    {
      SlotInside(Value(), wr);
      data[And(wr, mask)] := val;
      wr := if wr + 1 == Pow2(width) then 0 else wr + 1;
    }

    method Pop() returns (val: T)
      requires Valid()
      modifies this`rd
      ensures Valid() && val == Peek(old(Value())) && Value() == Drop(old(Value()))
    {
      SlotInside(Value(), rd);
      val := data[And(rd, mask)];
      rd := if rd + 1 == Pow2(width) then 0 else rd + 1;
    }
  }
}
