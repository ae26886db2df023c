/**
 The queue object that the steps of QueueProtocol run on: a circular buffer of `num` slots, of which one stays
 free, and two semaphores. Each method is one critical section, or one operation on a semaphore.
 */
module LinuxQueue {
  import opened Wrappers
  import opened QueueProtocol
  import opened Modulo

  class Semaphore {
    var tokens: nat

    constructor ()
      ensures tokens == 0
    {
      tokens := 0;
    }

    method Post()
      modifies this
      ensures tokens == old(tokens) + 1
    {
      tokens := tokens + 1;
    }

    /** The step that ends a wait: it needs a token. */
    method Take()
      requires tokens > 0
      modifies this
      ensures tokens == old(tokens) - 1
    {
      tokens := tokens - 1;
    }
  }

  const POINTER_BYTES := 8

  /** The slot `i` places after `at` in a circle of `num`. */
  ghost function Slot(at: int, i: int, num: int): int {
    if at + i < num then at + i else at + i - num
  }

  lemma SlotIsModulo(at: int, i: int, num: int)
    requires 0 <= at < num && 0 <= i <= num
    ensures (at + i) % num == Slot(at, i, num) && 0 <= Slot(at, i, num) < num
  {
  }

  class LinuxQueue<T(0)> {
    const semGetWait: Semaphore
    const semPutWait: Semaphore
    const num: int
    const data: array<T>
    var putAt: int
    var getAt: int
    var count: int

    ghost predicate Valid()
      reads this, data
    {
      && semGetWait != semPutWait
      && data.Length == num && 0 <= getAt < num && 0 <= count < num
      && putAt == Slot(getAt, count, num)
    }

    ghost function Items(): seq<T>
      reads this, data
      requires Valid()
    {
      seq(count, i requires 0 <= i < count reads this, data requires Valid() => data[Slot(getAt, i, num)])
    }

    ghost function Store(): Store<T>
      reads this, data, semGetWait, semPutWait
      requires Valid()
    {
      QueueProtocol.Store(num, Items(), semGetWait.tokens, semPutWait.tokens)
    }

    constructor (rawSize: int, slots: int)
      requires rawSize >= 1 && slots >= 1
      ensures Valid() && fresh(data) && fresh(semGetWait) && fresh(semPutWait)
      ensures Store().num == slots && Store().items == [] && Store().getTokens == 0
      ensures Store().putTokens == Round(rawSize) - 1
    {
      semGetWait := new Semaphore();
      semPutWait := new Semaphore();
      num := slots;
      data := new T[slots];
      putAt := 0;
      getAt := 0;
      count := 0;
      new;
      var size := Round(rawSize);
      for i := 0 to size - 1
        invariant semPutWait.tokens == i && semGetWait.tokens == 0
        invariant Valid() && count == 0
      {
        semPutWait.Post();
      }
    }

    static function Round(n: int): (size: int)
      requires n >= 0
      ensures size % POINTER_BYTES == 0 && n <= size < n + POINTER_BYTES
    {
      POINTER_BYTES * ((n + POINTER_BYTES - 1) / POINTER_BYTES)
    }

    /** The critical section of `get`, entered with a token taken. */
    method GetLocked() returns (msg: Option<T>)
      requires Valid()
      modifies this`getAt, this`count, semPutWait
      ensures Valid()
      ensures msg.None? <==> old(Items()) == []
      ensures msg.None? ==> Store() == old(Store())
      ensures msg.Some? ==> msg.value == old(Items())[0] && Store() == Deliver(old(Store()))
      ensures count == (putAt - getAt) % num
    {
      if putAt == getAt {
        Small(0, num);
        return None;
      }
      var next := (getAt + 1) % num;
      SlotIsModulo(getAt, 1, num);
      var m := data[getAt];
      ghost var items := Items();
      assert m == items[0];
      getAt := next;
      count := count - 1;
      semPutWait.Post();
      assert Items() == items[1..];
      CountIsDifference();
      return Some(m);
    }

    /** The critical section of one turn of `put`. */
    method PutLocked(msg: T) returns (ok: bool)
      requires Valid()
      modifies this`putAt, this`count, data, semGetWait
      ensures Valid()
      ensures ok <==> !Full(old(Store()))
      ensures !ok ==> Store() == old(Store())
      ensures ok ==> Store() == Accept(old(Store()), msg)
      ensures count == (putAt - getAt) % num
    {
      var next := (putAt + 1) % num;
      SlotIsModulo(putAt, 1, num);
      ghost var items := Items();
      if next != getAt {
        data[putAt] := msg;
        putAt := next;
        count := count + 1;
        semGetWait.Post();
        assert Items() == items + [msg];
        CountIsDifference();
        return true;
      }
      CountIsDifference();
      return false;
    }

    lemma CountIsDifference()
      requires Valid()
      ensures count == (putAt - getAt) % num
    {
    }
  }
}
