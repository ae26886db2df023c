/** The chain of byte buffers: the heap that carries the values of `BufferModel`. */
module BufferChain {
  import opened Bytes
  import opened BufferModel
  import opened BufferRuns

  /** Names a value that a buffer shows; until it is named, the fact below is not unfolded. */
  ghost predicate NameView(v: View, k: int) {
    true
  }

  ghost predicate NameBuffer(b: Buffer) {
    true
  }

  lemma StartOfSlice<T>(s: seq<T>, a: nat, b: nat, c: nat)
    requires a <= b <= c <= |s|
    ensures s[a..c][..b - a] == s[a..b]
  {
  }

  class Buffer {
    var next: Buffer?
    const size: nat
    var fill: int
    var out: int
    const data: array<Byte>

    /** The value of this buffer is `v`. */
    ghost predicate Shows(v: View)
      reads this`fill, this`out, data
    {
      forall k {:trigger NameView(v, k)} :: NameView(v, k) ==>
        0 <= out <= fill <= size == data.Length && v == View(size, data[..fill], out)
    }

    constructor (size: nat)
      ensures Shows(View(size, [], 0)) && fresh(data) && next == null
    {
      this.size := size;
      next, fill, out := null, 0, 0;
      data := new Byte[size];
    }

    method Add(c: Byte, ghost v: View) returns (ok: bool)
      requires Shows(v)
      modifies this`fill, data
      ensures v.Valid() && ok == !v.Full()
      ensures Shows(if ok then v.(taken := v.taken + [c]) else v)
    {
      assert NameView(v, 0);
      var after := fill + 1;
      if after > size {
        return false;
      }
      data[fill] := c;
      fill := after;
      return true;
    }

    /** Up to `n` bytes, from `at` on in `buff`; a byte even when `n` is not positive. */
    method Read(buff: array<Byte>, at: nat, n: int, ghost v: View) returns (count: nat)
      requires Shows(v) && buff != data
      requires v.Valid() && at + Share(v, n) <= buff.Length
      modifies this`out, buff
      ensures count == Share(v, n)
      ensures Shows(v.(out := v.out + count))
      ensures buff[at..at + count] == v.Held()[..count] && buff[..at] == old(buff[..at])
    {
      assert NameView(v, 0);
      assert v.Held() == data[out..fill];
      count := 0;
      var i := out;
      while i < fill
        invariant old(out) <= i <= fill && i == out == old(out) + count
        invariant count == 0 || count < n
        invariant at + count <= buff.Length
        invariant buff[at..at + count] == data[old(out)..i]
        invariant buff[..at] == old(buff[..at])
      {
        buff[at + count] := data[i];
        out := out + 1;
        count := count + 1;
        assert buff[at..at + count] == data[old(out)..out];
        if count >= n {
          break;
        }
        i := i + 1;
      }
      assert v.Held() == data[old(out)..fill];
      StartOfSlice(data[..], old(out), out, fill);
    }

    method IsFull(ghost v: View) returns (full: bool)
      requires Shows(v)
      ensures v.Valid() && full == v.Full()
    {
      assert NameView(v, 0);
      return fill == size;
    }

    method Spent(ghost v: View) returns (spent: bool)
      requires Shows(v)
      ensures spent == (v.out == v.size)
    {
      assert NameView(v, 0);
      return out == size;
    }
  }

  class Deque {
    var head: Buffer?
    var tail: Buffer?
    ghost var items: seq<Buffer>

    ghost predicate Linked()
      reads this, items`next
    {
      && (forall i, j :: 0 <= i < j < |items| ==> items[i] != items[j])
      && if items == [] then head == null && tail == null
         else head == items[0] && tail == items[|items| - 1] && tail.next == null &&
              forall i :: 0 <= i < |items| - 1 ==> items[i].next == items[i + 1]
    }

    ghost predicate Named(k: int) {
      true
    }

    /** The same, but not unfolded until the deque is named. */
    ghost predicate Valid()
      reads this, items`next
    {
      forall k {:trigger Named(k)} :: Named(k) ==> Linked()
    }

    constructor ()
      ensures Valid() && items == []
    {
      head, tail, items := null, null, [];
    }

    method PushTail(w: Buffer)
      requires Valid() && w !in items
      modifies this, items`next, w`next
      ensures Valid() && items == old(items) + [w]
    {
      assert Named(0);
      w.next := null;
      items := items + [w];
      if head == null {
        head := w;
        tail := w;
        return;
      }
      var prev := tail;
      prev.next := w;
      tail := w;
    }

    method PopHead() returns (item: Buffer?)
      requires Valid()
      modifies this
      ensures Valid()
      ensures if old(items) == [] then item == null && items == []
              else item == old(items)[0] && items == old(items)[1..]
    {
      assert Named(0);
      item := head;
      if item == null {
        return;
      }
      items := items[1..];
      if tail == item {
        head, tail := null, null;
        return;
      }
      head := item.next;
    }
  }

  ghost predicate Owned(items: seq<Buffer>, repr: set<object>) {
    forall b <- items :: b in repr && b.data in repr
  }

  /** No two buffers share an array. */
  ghost predicate Apart(items: seq<Buffer>) {
    forall b {:trigger NameBuffer(b)} :: NameBuffer(b) && b in items ==>
      forall c <- items :: b != c ==> b.data != c.data
  }

  lemma ApartWith(items: seq<Buffer>, b: Buffer)
    requires Apart(items) && forall c <- items :: c.data != b.data
    ensures Apart(items + [b])
  {
    forall c | c in items + [b] && NameBuffer(c)
      ensures forall x <- items + [b] :: c != x ==> c.data != x.data
    {
    }
  }

  lemma ApartWithout(items: seq<Buffer>)
    requires Apart(items) && items != []
    ensures Apart(items[1..])
  {
  }

  class Buffers {
    const deque: Deque
    /** The value of each buffer in the chain. */
    ghost var chain: seq<View>
    /** All bytes accepted and all bytes read, since the beginning. */
    ghost var accepted: seq<Byte>
    ghost var delivered: seq<Byte>
    /** All that was asked of it. */
    ghost var script: seq<Op>
    ghost var repr: set<object>

    /** The heap shows the values of `chain`. */
    ghost predicate Linked()
      reads this, repr
    {
      && deque in repr && Owned(deque.items, repr)
      && deque.Valid()
      && Apart(deque.items)
      && |chain| == |deque.items| && AllValid(chain)
      && forall i :: 0 <= i < |chain| ==> deque.items[i].Shows(chain[i])
    }

    ghost predicate Named(k: int) {
      true
    }

    /** The same, but not unfolded until these buffers are named. */
    ghost predicate Shown()
      reads this, repr
    {
      this !in repr && deque in repr && forall k {:trigger Named(k)} :: Named(k) ==> Linked()
    }

    lemma Ends()
      requires Shown()
      ensures deque.head == null <==> chain == []
      ensures deque.tail == null <==> chain == []
      ensures chain != [] ==> deque.head in repr && chain[0].Valid() && deque.head.Shows(chain[0])
      ensures chain != [] ==> deque.tail in repr && deque.tail.data in repr && deque.tail.Shows(chain[|chain| - 1])
    {
      assert Named(0) && deque.Named(0);
    }

    lemma NothingLeft()
      requires Shown() && deque.head == null
      ensures Dry(chain)
    {
      Ends();
    }

    ghost function Log(): Ledger
      reads this
    {
      Ledger(chain, accepted, delivered)
    }

    /** The state is that of a run. */
    ghost predicate Valid()
      reads this, repr
    {
      Shown() && AllValid(chain) && IsRun(script, Log())
    }

    constructor ()
      ensures Valid() && fresh(repr)
      ensures script == [] && Log() == EMPTY
    {
      deque := new Deque();
      chain, accepted, delivered, script := [], [], [], [];
      new;
      repr := {deque};
    }

    /** All bytes read, and then those that wait, are the bytes of the puts that found room. */
    lemma InOrder()
      requires Valid()
      ensures delivered + Pending(chain) == Fitting(script)
    {
      OrderOfRun(script, Log());
    }

    method AddBuffer(size: nat)
      requires Valid()
      modifies this`chain, this`script, this`repr, repr
      ensures Valid() && fresh(repr - old(repr))
      ensures script == old(script) + [Grow(size)] && Log() == Do(old(Log()), Grow(size))
    {
      RunGoesOn(script, Log(), Grow(size));
      AppendBuffer(size);
      script := script + [Grow(size)];
    }

    method AppendBuffer(size: nat)
      requires Shown()
      modifies this`chain, this`repr, repr
      ensures Shown() && AllValid(chain) && fresh(repr - old(repr))
      ensures chain == old(chain) + [View(size, [], 0)]
    {
      var b := new Buffer(size);
      Attach(b, View(size, [], 0));
    }

    method Attach(b: Buffer, ghost v: View)
      requires Shown() && b !in repr && b.data !in repr && v.Valid() && b.Shows(v)
      modifies this`chain, this`repr, repr, b`next
      ensures Shown() && AllValid(chain) && repr == old(repr) + {b, b.data} && chain == old(chain) + [v]
    {
      assert Named(0);
      ghost var items, n := deque.items, |chain|;
      ApartWith(items, b);
      deque.PushTail(b);
      repr := repr + {b, b.data};
      assert forall i :: 0 <= i < n ==> items[i].Shows(chain[i]);
      chain := chain + [v];
    }

    method Add(c: Byte) returns (ok: bool)
      requires Valid()
      modifies this`chain, this`accepted, this`script, repr
      ensures Valid() && ok == HasRoom(old(chain)) == (Room(old(script)) > 0)
      ensures script == old(script) + [Put(c)] && Log() == Do(old(Log()), Put(c))
    {
      Ends();
      RoomOfRun(script, Log());
      RunGoesOn(script, Log(), Put(c));
      script := script + [Put(c)];
      var b := deque.tail;
      if b == null {
        return false;
      }
      ok := AddLast(b, c);
      if ok {
        accepted := accepted + [c];
      }
    }

    method AddLast(b: Buffer, c: Byte) returns (ok: bool)
      requires Shown() && b == deque.tail
      modifies this`chain, b`fill, b.data
      ensures Shown() && old(chain) != [] && AllValid(chain) && ok == HasRoom(old(chain))
      ensures chain == if ok then WithByte(old(chain), c) else old(chain)
    {
      assert Named(0) && deque.Named(0) && NameBuffer(b);
      ghost var n := |chain| - 1;
      ok := b.Add(c, chain[n]);
      assert forall i :: 0 <= i < n ==> deque.items[i].Shows(chain[i]);
      if ok {
        chain := WithByte(chain, c);
      }
    }

    method IsFull() returns (full: bool)
      requires Valid()
      ensures full == !HasRoom(chain) == (Room(script) == 0)
    {
      Ends();
      RoomOfRun(script, Log());
      var b := deque.tail;
      if b == null {
        return true;
      }
      full := b.IsFull(chain[|chain| - 1]);
    }

    /** One turn of the loop of `Read`. */
    method Turn(b: Buffer, buff: array<Byte>, at: nat, more: int, ghost first: seq<View>, ghost len: int)
      returns (n: nat)
      requires Shown() && AllValid(chain) && b == deque.head && buff !in repr
      requires more != 0 && at + Obtained(Ready(chain), more) <= buff.Length
      requires Reading(first, len, chain, more, buff[..at])
      modifies this`chain, repr, buff
      ensures Shown() && AllValid(chain) && at + n <= buff.Length
      ensures Reading(first, len, chain, more - n, buff[..at + n])
      ensures n == 0 ==> Dry(chain)
    {
      Ends();
      ghost var before, got := chain, buff[..at];
      ShareIsObtained(chain, more);
      n := ReadHead(b, buff, at, more);
      if n > 0 {
        ReadingGoesOn(first, len, before, more, got);
        assert buff[..at + n] == got + before[0].Held()[..n];
      }
    }

    method ReadHead(b: Buffer, buff: array<Byte>, at: nat, more: int) returns (n: nat)
      requires Shown() && b == deque.head && buff !in repr
      requires chain != [] && chain[0].Valid() && at + Share(chain[0], more) <= buff.Length
      modifies this`chain, repr, buff
      ensures Shown() && AllValid(chain) && AllValid(old(chain))
      ensures n == Share(old(chain)[0], more)
      ensures chain == if n == 0 then old(chain) else AfterHead(old(chain)[0], old(chain)[1..], n)
      ensures buff[at..at + n] == old(chain)[0].Held()[..n] && buff[..at] == old(buff[..at])
    {
      Ends();
      n := ReadFirst(b, buff, at, more);
      if n > 0 {
        Ends();
        var spent := b.Spent(chain[0]);
        if spent {
          DropHead();
        }
      }
    }

    method ReadFirst(b: Buffer, buff: array<Byte>, at: nat, more: int) returns (n: nat)
      requires Shown() && b == deque.head && buff !in repr
      requires chain != [] && chain[0].Valid() && at + Share(chain[0], more) <= buff.Length
      modifies this`chain, b`out, buff
      ensures Shown() && b == deque.head && AllValid(old(chain))
      ensures n == Share(old(chain)[0], more)
      ensures chain == OutMoved(old(chain)[0], old(chain)[1..], n)
      ensures buff[at..at + n] == old(chain)[0].Held()[..n] && buff[..at] == old(buff[..at])
    {
      assert Named(0) && deque.Named(0);
      ghost var v, rest := chain[0], chain[1..];
      n := b.Read(buff, at, more, v);
      assert forall i :: 0 < i < |chain| ==> deque.items[i].Shows(chain[i]);
      assert deque.Valid();
      chain := OutMoved(v, rest, n);
    }

    method DropHead()
      requires Shown() && chain != []
      modifies this`chain, deque
      ensures Shown() && chain == old(chain)[1..]
    {
      assert Named(0);
      ApartWithout(deque.items);
      var _ := deque.PopHead();
      chain := chain[1..];
    }

    /** The loop of `Read`: it stops when nothing more is wanted or the first buffer has nothing. */
    method ReadLoop(buff: array<Byte>, len: int) returns (count: nat)
      requires Shown() && AllValid(chain) && buff !in repr && Obtained(Ready(chain), len) <= buff.Length
      modifies this`chain, repr, buff
      ensures Shown() && AllValid(old(chain)) && count <= buff.Length
      ensures Taken(old(chain), len) == (chain, buff[..count])
    {
      count := 0;
      var more := len;
      ghost var first := chain;
      ReadingStarts(chain, len);
      while more != 0
        invariant Shown() && AllValid(chain) && count <= buff.Length
        invariant Reading(first, len, chain, more, buff[..count])
        invariant count + Obtained(Ready(chain), more) == Obtained(Ready(first), len)
        decreases Obtained(Ready(first), len) - count
      {
        var b := deque.head;
        if b == null {
          NothingLeft();
          break;
        }
        var n := Turn(b, buff, count, more, first, len);
        if n == 0 {
          break;
        }
        count := count + n;
        more := more - n;
        ReadingLeaves(first, len, chain, more, buff[..count]);
      }
      ReadingEnds(first, len, chain, more, buff[..count]);
    }

    /** The oldest pending bytes, as many as can be read up to `len`, each once and in order. The loop ends
        with the last byte that can be read when `len` is negative. */
    method Read(buff: array<Byte>, len: int) returns (count: nat)
      requires Valid() && buff !in repr && Obtained(Ready(chain), len) <= buff.Length
      modifies this`chain, this`delivered, this`script, repr, buff
      ensures Valid() && AllValid(old(chain)) && count == Obtained(Ready(old(chain)), len)
      ensures script == old(script) + [Get(len)] && Log() == Do(old(Log()), Get(len))
      ensures delivered == old(delivered) + buff[..count]
    {
      count := ReadLoop(buff, len);
      delivered := delivered + buff[..count];
      DoneGet(script, old(Log()), len, Log());
      script := script + [Get(len)];
    }
  }
}
