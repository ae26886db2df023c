/** A chain of buffers as values: what each was given, and how far it has been read. */
module BufferModel {
  import opened Bytes

  datatype View = View(size: nat, taken: seq<Byte>, out: nat) {
    ghost predicate Valid() {
      out <= |taken| <= size
    }

    /** Filled to the end. */
    predicate Full() {
      |taken| == size
    }

    function Held(): seq<Byte>
      requires Valid()
    {
      taken[out..]
    }
  }

  ghost predicate AllValid(chain: seq<View>) {
    forall v <- chain :: v.Valid()
  }

  /** The bytes a chain has taken and not given back, the oldest first. */
  function Pending(chain: seq<View>): seq<Byte>
    requires AllValid(chain)
  {
    if chain == [] then [] else chain[0].Held() + Pending(chain[1..])
  }

  /** How many of them can be read: reading goes on to the next buffer only after the last byte of a full one. */
  function Ready(chain: seq<View>): nat
    requires AllValid(chain)
  {
    if chain == [] then 0
    else |chain[0].Held()| + (if chain[0].Held() != [] && chain[0].Full() then Ready(chain[1..]) else 0)
  }

  /** No bytes wait behind a buffer that will never be left. */
  ghost predicate NothingStuck(chain: seq<View>)
    requires AllValid(chain)
  {
    forall i, j :: 0 <= i < j < |chain| && chain[j].Held() != [] ==> chain[i].Held() != [] && chain[i].Full()
  }

  lemma NothingStuckBehind(chain: seq<View>)
    requires AllValid(chain) && chain != []
    ensures NothingStuck(chain) <==>
            NothingStuck(chain[1..]) &&
            ((chain[0].Held() != [] && chain[0].Full()) || forall v <- chain[1..] :: v.Held() == [])
  {
  }

  lemma {:induction false} NothingPending(chain: seq<View>)
    requires AllValid(chain)
    ensures Pending(chain) == [] <==> forall v <- chain :: v.Held() == []
  {
    if chain != [] {
      NothingPending(chain[1..]);
      assert forall v <- chain :: v == chain[0] || v in chain[1..];
    }
  }

  /** Main result: everything pending can be read exactly when no byte is stuck. */
  lemma {:induction false} ReadyIsAllExactly(chain: seq<View>)
    requires AllValid(chain)
    ensures Ready(chain) <= |Pending(chain)|
    ensures Ready(chain) == |Pending(chain)| <==> NothingStuck(chain)
  {
    if chain != [] {
      ReadyIsAllExactly(chain[1..]);
      NothingStuckBehind(chain);
      NothingPending(chain[1..]);
      if Pending(chain[1..]) == [] {
        assert NothingStuck(chain[1..]);
      }
    }
  }

  lemma {:induction false} PendingJoins(a: seq<View>, b: seq<View>)
    requires AllValid(a) && AllValid(b)
    ensures AllValid(a + b) && Pending(a + b) == Pending(a) + Pending(b)
    decreases |a|
  {
    if a == [] {
      assert a + b == b;
    } else {
      assert (a + b)[1..] == a[1..] + b;
      PendingJoins(a[1..], b);
      assert Pending(a + b) == a[0].Held() + (Pending(a[1..]) + Pending(b));
    }
  }

  lemma PendingOfOne(v: View)
    requires v.Valid()
    ensures Pending([v]) == v.Held()
  {
  }

  /** The chain after its last buffer has taken one more byte. */
  function WithByte(chain: seq<View>, c: Byte): seq<View>
    requires chain != []
  {
    var n := |chain| - 1;
    chain[n := chain[n].(taken := chain[n].taken + [c])]
  }

  lemma ByteInLast(front: seq<View>, v: View, c: Byte)
    requires AllValid(front) && v.Valid() && !v.Full()
    ensures var w := v.(taken := v.taken + [c]);
            w.Valid() && AllValid(front + [v]) && AllValid(front + [w]) &&
            Pending(front + [w]) == Pending(front + [v]) + [c]
  {
    var w := v.(taken := v.taken + [c]);
    PendingJoins(front, [v]);
    PendingJoins(front, [w]);
    PendingOfOne(v);
    PendingOfOne(w);
    assert w.Held() == v.Held() + [c];
  }

  /** Names a chain whose bytes are to be looked at; until it is named, the facts below are not unfolded. */
  ghost predicate Name(chain: seq<View>, k: int) {
    true
  }

  /** The buffers `[v] + rest` after `n` bytes of `v` have been read: with the last byte of its space it goes. */
  function AfterHead(v: View, rest: seq<View>, n: nat): seq<View> {
    var w := v.(out := v.out + n);
    if w.out == w.size then rest else [w] + rest
  }

  /** The same when the buffer stays. */
  function OutMoved(v: View, rest: seq<View>, n: nat): (chain: seq<View>)
    requires v.Valid() && AllValid(rest) && n <= |v.Held()|
    ensures AllValid(chain) && |chain| == |rest| + 1 && chain[0] == v.(out := v.out + n) && chain[1..] == rest
    ensures forall i :: 0 < i < |chain| ==> chain[i] == rest[i - 1]
  {
    [v.(out := v.out + n)] + rest
  }

  lemma HeadLess(v: View, rest: seq<View>, n: nat)
    requires v.Valid() && AllValid(rest) && 0 < n <= |v.Held()| && v.out + n != v.size
    ensures var w := v.(out := v.out + n);
            && AllValid([v] + rest) && AllValid([w] + rest)
            && Pending([w] + rest) == Pending([v] + rest)[n..] && Ready([w] + rest) == Ready([v] + rest) - n
  {
  }

  lemma HeadGone(v: View, rest: seq<View>)
    requires v.Valid() && AllValid(rest) && v.Held() != [] && v.Full()
    ensures AllValid([v] + rest)
    ensures Pending(rest) == Pending([v] + rest)[|v.Held()|..] && Ready(rest) == Ready([v] + rest) - |v.Held()|
  {
  }

  lemma HeadRead(v: View, rest: seq<View>, n: nat)
    requires v.Valid() && AllValid(rest) && 0 < n <= |v.Held()|
    ensures AllValid([v] + rest) && AllValid(AfterHead(v, rest, n))
    ensures Pending(AfterHead(v, rest, n)) == Pending([v] + rest)[n..]
    ensures Ready(AfterHead(v, rest, n)) == Ready([v] + rest) - n
  {
    if v.out + n != v.size {
      HeadLess(v, rest, n);
    } else {
      HeadGone(v, rest);
    }
  }

  /** How many bytes one turn of the reading loop takes out of `v`: one even when `len` is negative. */
  function Share(v: View, len: int): (n: nat)
    requires v.Valid()
    ensures n <= |v.Held()| && (v.Held() != [] ==> n > 0)
  {
    var most := if len < 1 then 1 else len;
    if most < |v.Held()| then most else |v.Held()|
  }

  /** The whole loop: what it leaves of the chain, and the bytes it takes. */
  function Taken(chain: seq<View>, len: int): (r: (seq<View>, seq<Byte>))
    requires AllValid(chain)
    ensures AllValid(r.0)
    decreases Ready(chain)
  {
    if len == 0 || chain == [] || chain[0].Held() == [] then (chain, [])
    else
      var n := Share(chain[0], len);
      assert chain == [chain[0]] + chain[1..];
      HeadRead(chain[0], chain[1..], n);
      var r := Taken(AfterHead(chain[0], chain[1..], n), len - n);
      (r.0, chain[0].Held()[..n] + r.1)
  }

  /** How many bytes a read of `len` gets: without a limit when `len` is negative. */
  function Obtained(ready: nat, len: int): nat {
    if 0 <= len < ready then len else ready
  }

  lemma ShareIsObtained(chain: seq<View>, len: int)
    requires AllValid(chain) && chain != [] && len != 0
    ensures Share(chain[0], len) <= Obtained(Ready(chain), len)
  {
  }

  /** One turn of the loop. */
  lemma TakenOnce(chain: seq<View>, len: int) returns (next: seq<View>, n: nat, got: seq<Byte>)
    requires AllValid(chain) && len != 0 && chain != [] && chain[0].Held() != []
    ensures AllValid(next) && 0 < n == |got| && n <= Obtained(Ready(chain), len)
    ensures Pending(chain) == got + Pending(next) && Ready(chain) == n + Ready(next)
    ensures Taken(chain, len) == (Taken(next, len - n).0, got + Taken(next, len - n).1)
  {
    var v, rest := chain[0], chain[1..];
    n := Share(v, len);
    ShareIsObtained(chain, len);
    assert chain == [v] + rest;
    HeadRead(v, rest, n);
    next, got := AfterHead(v, rest, n), v.Held()[..n];
    assert got == Pending(chain)[..n];
  }

  lemma TakenNone(chain: seq<View>, len: int)
    requires AllValid(chain) && (len == 0 || chain == [] || chain[0].Held() == [])
    ensures Taken(chain, len) == (chain, []) && Pending(chain) == [] + Pending(chain)
    ensures Obtained(Ready(chain), len) == 0
  {
  }

  /** A read takes the oldest pending bytes, each once and in order, exactly as many as can be had. */
  lemma {:induction false} TakenInOrder(chain: seq<View>, len: int)
    requires AllValid(chain)
    ensures var r := Taken(chain, len);
            && Pending(chain) == r.1 + Pending(r.0)
            && Ready(chain) == |r.1| + Ready(r.0)
            && |r.1| == Obtained(Ready(chain), len)
    decreases Ready(chain)
  {
    if len == 0 || chain == [] || chain[0].Held() == [] {
      TakenNone(chain, len);
    } else {
      var next, n, got := TakenOnce(chain, len);
      TakenInOrder(next, len - n);
      var r := Taken(next, len - n);
      Grouped(got, r.1, Pending(r.0));
    }
  }

  lemma Grouped(a: seq<Byte>, b: seq<Byte>, c: seq<Byte>)
    ensures a + (b + c) == (a + b) + c
  {
  }

  /** Reading `len` bytes of `first` has got `got` so far; `more` of `chain` are still to be read. */
  ghost predicate Reading(first: seq<View>, len: int, chain: seq<View>, more: int, got: seq<Byte>) {
    forall k {:trigger Name(first, k)} :: Name(first, k) ==>
      && AllValid(first) && AllValid(chain)
      && Taken(first, len) == (Taken(chain, more).0, got + Taken(chain, more).1)
  }

  lemma ReadingStarts(chain: seq<View>, len: int)
    requires AllValid(chain)
    ensures Reading(chain, len, chain, len, [])
  {
    assert [] + Taken(chain, len).1 == Taken(chain, len).1;
  }

  lemma ReadingGoesOn(first: seq<View>, len: int, chain: seq<View>, more: int, got: seq<Byte>)
    requires Reading(first, len, chain, more, got) && more != 0
    requires chain != [] && chain[0].Valid() && chain[0].Held() != []
    ensures var n := Share(chain[0], more);
            Reading(first, len, AfterHead(chain[0], chain[1..], n), more - n, got + chain[0].Held()[..n])
  {
    assert Name(first, 0);
    var n := Share(chain[0], more);
    assert chain == [chain[0]] + chain[1..];
    HeadRead(chain[0], chain[1..], n);
    var r := Taken(AfterHead(chain[0], chain[1..], n), more - n);
    assert got + (chain[0].Held()[..n] + r.1) == (got + chain[0].Held()[..n]) + r.1;
  }

  /** Nothing can be read. */
  ghost predicate Dry(chain: seq<View>) {
    chain == [] || (chain[0].Valid() && chain[0].Held() == [])
  }

  lemma ReadingEnds(first: seq<View>, len: int, chain: seq<View>, more: int, got: seq<Byte>)
    requires Reading(first, len, chain, more, got) && (more == 0 || Dry(chain))
    ensures AllValid(first) && Taken(first, len) == (chain, got)
  {
    assert Name(first, 0);
    assert got + [] == got;
  }

  /** At any time what has been read, and what can still be read, is what could be read at first. */
  lemma ReadingLeaves(first: seq<View>, len: int, chain: seq<View>, more: int, got: seq<Byte>)
    requires Reading(first, len, chain, more, got)
    ensures AllValid(first) && AllValid(chain)
    ensures |got| + Obtained(Ready(chain), more) == Obtained(Ready(first), len)
  {
    assert Name(first, 0);
    TakenInOrder(first, len);
    TakenInOrder(chain, more);
  }
}
