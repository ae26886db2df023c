/**
 Event times. The queues compare 32-bit clocks by the sign of their wrapped difference; an ideal queue compares
 unbounded times. Pending events are a set, ordered by time, and among equal times by age, the newest first.
 */
module EventOrder {

  const TWO_32 := 0x1_0000_0000
  const TWO_31 := 0x8000_0000

  /** A 32-bit pattern read as a two's complement number. */
  function Signed(x: int): int {
    if x < TWO_31 then x else x - TWO_32
  }

  /** `cmp_t`: the wrapped difference of two clocks. */
  function CmpTicks(t1: int, t2: int): int {
    Signed((t2 - t1) % TWO_32)
  }

  /** `timer_cmp`: the same difference by way of signed values, wrapping in 32 bits. */
  function CmpTimers(t1: int, t2: int): int {
    Signed((Signed(t2) - Signed(t1)) % TWO_32)
  }

  lemma Congruent(x: int, k: int)
    ensures (x + k * TWO_32) % TWO_32 == x % TWO_32
  {
  }

  /** The two comparisons are one. */
  lemma SameComparison(t1: int, t2: int)
    requires 0 <= t1 < TWO_32 && 0 <= t2 < TWO_32
    ensures CmpTimers(t1, t2) == CmpTicks(t1, t2)
  {
    var a, b := if t1 < TWO_31 then 0 else -1, if t2 < TWO_31 then 0 else -1;
    Congruent(t2 - t1, b - a);
  }

  /** For times less than half a turn of the clock apart, the wrapped difference is the true one. */
  lemma WrappedIsTrue(a: int, b: int)
    requires -TWO_31 <= b - a < TWO_31
    ensures CmpTicks(a % TWO_32, b % TWO_32) == b - a
  {
  }

  // ---------------------------------------------------------------------------------------------------
  // The ideal queue
  // ---------------------------------------------------------------------------------------------------

  /** A pending event, its true time, and when it was added. */
  datatype Entry<E> = Entry(ev: E, at: int, stamp: nat)

  predicate Before<E>(a: Entry<E>, b: Entry<E>) {
    a.at < b.at || (a.at == b.at && a.stamp > b.stamp)
  }

  ghost predicate Ordered<E>(q: seq<Entry<E>>) {
    forall i, j :: 0 <= i < j < |q| ==> Before(q[i], q[j])
  }

  ghost function Pending<E>(q: seq<Entry<E>>): set<Entry<E>> {
    set e | e in q
  }

  lemma NotEmpty<E>(q: seq<Entry<E>>)
    ensures q == [] <==> Pending(q) == {}
    ensures q != [] ==> q[0] in Pending(q)
  {
    if q != [] {
      assert q[0] in Pending(q);
    }
  }

  /** A pending set determines its queue: two ordered lists of the same entries are the same. */
  lemma {:induction false} OrderIsUnique<E>(p: seq<Entry<E>>, q: seq<Entry<E>>)
    requires Ordered(p) && Ordered(q) && Pending(p) == Pending(q)
    ensures p == q
    decreases |p|
  {
    NotEmpty(p);
    NotEmpty(q);
    if p != [] {
      assert p[0] in Pending(q) && q[0] in Pending(p);
      assert p[0] == q[0];
      forall e ensures e in p[1..] <==> e in q[1..] {
        TailIsRest(p, e);
        TailIsRest(q, e);
        assert e in Pending(p) <==> e in Pending(q);
      }
      OrderIsUnique(p[1..], q[1..]);
      assert p == [p[0]] + p[1..] && q == [q[0]] + q[1..];
    }
  }

  lemma HeadIsFirst<E>(q: seq<Entry<E>>, e: Entry<E>)
    requires Ordered(q) && q != [] && e in q[1..]
    ensures e in q && Before(q[0], e)
  {
  }

  lemma TailIsRest<E>(q: seq<Entry<E>>, e: Entry<E>)
    requires Ordered(q) && q != []
    ensures e in q[1..] <==> e in q && e != q[0]
  {
  }

  /** The list with `w` put before the first entry not earlier than it. */
  function Insert<E>(q: seq<Entry<E>>, w: Entry<E>): seq<Entry<E>> {
    if q == [] || q[0].at >= w.at then [w] + q else [q[0]] + Insert(q[1..], w)
  }

  /** A new entry, stamped after all others, joins the pending set in its place. */
  lemma {:induction false} InsertAdds<E>(q: seq<Entry<E>>, w: Entry<E>)
    requires Ordered(q) && forall e :: e in q ==> e.stamp < w.stamp
    ensures Ordered(Insert(q, w)) && Pending(Insert(q, w)) == Pending(q) + {w}
    decreases |q|
  {
    if q == [] || q[0].at >= w.at {
      assert Pending([w] + q) == Pending(q) + {w};
    } else {
      var rest := q[1..];
      assert q == [q[0]] + rest;
      PartsOrdered([q[0]], rest);
      InsertAdds(rest, w);
      var r := Insert(rest, w);
      forall i | 0 <= i < |r| ensures Before(q[0], r[i]) {
        assert r[i] in Pending(r);
        if r[i] != w {
          assert r[i] in rest;
          HeadIsFirst(q, r[i]);
        }
      }
      assert Pending([q[0]] + r) == Pending(r) + {q[0]};
      assert Pending(q) == Pending(rest) + {q[0]};
    }
  }

  lemma {:induction false} InsertAt<E>(q: seq<Entry<E>>, w: Entry<E>, k: nat)
    requires k <= |q| && (forall i :: 0 <= i < k ==> q[i].at < w.at) && (k < |q| ==> q[k].at >= w.at)
    ensures Insert(q, w) == q[..k] + [w] + q[k..]
    decreases k
  {
    if k > 0 {
      InsertAt(q[1..], w, k - 1);
      assert q[1..][..k - 1] == q[1..k] && q[1..][k - 1..] == q[k..];
      assert q[..k] == [q[0]] + q[1..k];
    }
  }

  /** The entries that are due at `now`, and those that are not. */
  function Due<E>(q: seq<Entry<E>>, now: int): seq<Entry<E>> {
    if q == [] || q[0].at > now then [] else [q[0]] + Due(q[1..], now)
  }

  function Later<E>(q: seq<Entry<E>>, now: int): seq<Entry<E>> {
    if q == [] || q[0].at > now then q else Later(q[1..], now)
  }

  lemma {:induction false} DueSplits<E>(q: seq<Entry<E>>, now: int)
    ensures Due(q, now) + Later(q, now) == q
    decreases |q|
  {
    if q != [] && q[0].at <= now {
      DueSplits(q[1..], now);
      assert [q[0]] + (Due(q[1..], now) + Later(q[1..], now)) == q;
    }
  }

  lemma PartsOrdered<E>(a: seq<Entry<E>>, b: seq<Entry<E>>)
    requires Ordered(a + b)
    ensures Ordered(a) && Ordered(b)
  {
    forall i, j | 0 <= i < j < |a| ensures Before(a[i], a[j]) {
      assert Before((a + b)[i], (a + b)[j]);
    }
    forall i, j | 0 <= i < j < |b| ensures Before(b[i], b[j]) {
      assert Before((a + b)[|a| + i], (a + b)[|a| + j]);
    }
  }

  lemma {:induction false} DueAreDue<E>(q: seq<Entry<E>>, now: int, e: Entry<E>)
    requires Ordered(q)
    ensures e in Due(q, now) <==> e in q && e.at <= now
    ensures e in Later(q, now) <==> e in q && e.at > now
    decreases |q|
  {
    if q != [] {
      TailIsRest(q, e);
      if q[0].at <= now {
        PartsOrdered([q[0]], q[1..]);
        DueAreDue(q[1..], now, e);
      } else if e in q[1..] {
        HeadIsFirst(q, e);
      }
    }
  }

  /** Taking entries off the front while they are due takes exactly the pending entries that are due, in order
      of time and the newest first among equals, and leaves the others. */
  lemma DueIsExact<E>(q: seq<Entry<E>>, now: int)
    requires Ordered(q)
    ensures Due(q, now) + Later(q, now) == q && Ordered(Due(q, now)) && Ordered(Later(q, now))
    ensures Pending(Due(q, now)) == set e | e in Pending(q) && e.at <= now
    ensures Pending(Later(q, now)) == set e | e in Pending(q) && e.at > now
  {
    DueSplits(q, now);
    PartsOrdered(Due(q, now), Later(q, now));
    var due, later := set e | e in Pending(q) && e.at <= now, set e | e in Pending(q) && e.at > now;
    forall e ensures e in Pending(Due(q, now)) <==> e in due {
      DueAreDue(q, now, e);
    }
    forall e ensures e in Pending(Later(q, now)) <==> e in later {
      DueAreDue(q, now, e);
    }
    assert Pending(Due(q, now)) == due && Pending(Later(q, now)) == later;
  }
}
