/**
 The two event queues over intrusive lists: the tick queue, whose events run, and the timer queue, whose events
 post a semaphore. Each refines the ideal queue of EventOrder while all its times lie within half a turn of the
 32-bit clock.
 */
module EventQueues {
  import opened EventOrder
  import opened EventList

  ghost function Events(q: seq<Entry<Event>>): (s: seq<Event>)
    ensures |s| == |q| && forall i :: 0 <= i < |q| ==> s[i] == q[i].ev
  {
    seq(|q|, i requires 0 <= i < |q| => q[i].ev)
  }

  /** Names the queue a fact is wanted of; until it is named, the two facts below are not unfolded. */
  ghost predicate Name(q: seq<Entry<Event>>, k: int) {
    true
  }

  /** Every time lies less than half a turn of the clock from `t`. */
  ghost predicate Near(q: seq<Entry<Event>>, t: int) {
    forall k {:trigger Name(q, k)} :: Name(q, k) ==> Close(q, t)
  }

  ghost predicate Close(q: seq<Entry<Event>>, t: int) {
    forall e :: e in q ==> -TWO_31 < e.at - t < TWO_31
  }

  /** Every other event's time does. */
  ghost predicate OthersNear(q: seq<Entry<Event>>, ev: Event, t: int) {
    forall k {:trigger Name(q, k)} :: Name(q, k) ==> forall e :: e in q && e.ev != ev ==> -TWO_31 < e.at - t < TWO_31
  }

  /** An ideal queue within one half turn, all entries older than `stamp`. */
  ghost predicate Sound(q: seq<Entry<Event>>, stamp: nat) {
    forall k {:trigger Name(q, k)} :: Name(q, k) ==> Ordered(q) && Old(q, stamp) && OneTurn(q)
  }

  ghost predicate Old(q: seq<Entry<Event>>, stamp: nat) {
    forall e :: e in q ==> e.stamp < stamp
  }

  ghost predicate OneTurn(q: seq<Entry<Event>>) {
    forall e :: e in q ==> Close(q, e.at)
  }

  /** The clock times of an ideal queue. */
  ghost function Clocks(q: seq<Entry<Event>>): (s: seq<int>)
    ensures |s| == |q| && forall i :: 0 <= i < |q| ==> s[i] == q[i].at % TWO_32
  {
    seq(|q|, i requires 0 <= i < |q| => q[i].at % TWO_32)
  }

  /** The nodes of a list carry the entries of an ideal queue. */
  ghost predicate Carries(list: List, q: seq<Entry<Event>>, stamp: nat)
    reads list, list.nodes
  {
    forall k {:trigger NameQueue(list, k)} :: NameQueue(list, k) ==> CarriesAll(list, q, stamp)
  }

  ghost predicate NameQueue(list: List, k: int) {
    true
  }

  lemma UseCarries(list: List, q: seq<Entry<Event>>, stamp: nat)
    requires Carries(list, q, stamp)
    ensures CarriesAll(list, q, stamp)
  {
    assert NameQueue(list, 0);
  }

  lemma MakeCarries(list: List, q: seq<Entry<Event>>, stamp: nat)
    requires CarriesAll(list, q, stamp)
    ensures Carries(list, q, stamp)
  {
  }

  ghost predicate CarriesAll(list: List, q: seq<Entry<Event>>, stamp: nat)
    reads list, list.nodes
  {
    list.Valid() && list.nodes == Events(q) && Whens(list.nodes) == Clocks(q) && Sound(q, stamp)
  }

  lemma PlaceByTime(q: seq<Entry<Event>>, w: Entry<Event>, k: nat)
    requires Near(q, w.at) && Placed(Clocks(q), w.at % TWO_32, CmpTicks, k)
    ensures Insert(q, w) == q[..k] + [w] + q[k..]
  {
    assert Name(q, 0);
    forall i | 0 <= i < |q| ensures CmpTicks(w.at % TWO_32, q[i].at % TWO_32) == q[i].at - w.at {
      assert q[i] in q;
      WrappedIsTrue(w.at, q[i].at);
    }
    InsertAt(q, w, k);
  }

  lemma SoundWith(q: seq<Entry<Event>>, w: Entry<Event>)
    requires Sound(q, w.stamp) && Near(q, w.at)
    ensures Sound(Insert(q, w), w.stamp + 1) && Pending(Insert(q, w)) == Pending(q) + {w}
  {
    assert Name(q, 0);
    InsertAdds(q, w);
    var p := Insert(q, w);
    forall e | e in p ensures e == w || e in q {
      assert e in Pending(p);
    }
    forall e | e in p ensures Close(p, e.at) {
      assert e != w ==> Close(q, e.at);
    }
  }

  /** Where the wrapped comparison puts an event is where it belongs by true time. */
  lemma AddedInPlace(q: seq<Entry<Event>>, w: Entry<Event>, k: nat)
    requires Sound(q, w.stamp) && Near(q, w.at) && Placed(Clocks(q), w.at % TWO_32, CmpTicks, k)
    ensures Insert(q, w) == q[..k] + [w] + q[k..] && Sound(Insert(q, w), w.stamp + 1)
    ensures Pending(Insert(q, w)) == Pending(q) + {w}
  {
    PlaceByTime(q, w, k);
    SoundWith(q, w);
  }

  lemma SplicedIn(q: seq<Entry<Event>>, w: Entry<Event>, k: nat)
    requires k <= |q| && Whens(Events(q)) == Clocks(q) && w.ev.when == w.at % TWO_32
    ensures var p, n := q[..k] + [w] + q[k..], Events(q)[..k] + [w.ev] + Events(q)[k..];
            Events(p) == n && Whens(n) == Clocks(p)
  {
    var p, n := q[..k] + [w] + q[k..], Events(q)[..k] + [w.ev] + Events(q)[k..];
    forall i | 0 <= i < |p| ensures Events(p)[i] == n[i] && Whens(n)[i] == Clocks(p)[i] {
      var j := if i < k then i else i - 1;
      assert i != k ==> n[i] == Events(q)[j] && Whens(Events(q))[j] == Clocks(q)[j];
    }
  }

  lemma SplicedOut(q: seq<Entry<Event>>, k: nat)
    requires k < |q| && Whens(Events(q)) == Clocks(q)
    ensures var n := Events(q)[..k] + Events(q)[k + 1..];
            Events(Without(q, k)) == n && Whens(n) == Clocks(Without(q, k))
  {
    var p, n := Without(q, k), Events(q)[..k] + Events(q)[k + 1..];
    assert Events(p) == n;
    forall i | 0 <= i < |p| ensures Whens(n)[i] == Clocks(p)[i] {
      OneSplicedOut(q, k, i);
    }
  }

  lemma OneSplicedOut(q: seq<Entry<Event>>, k: nat, i: nat)
    requires k < |q| && Whens(Events(q)) == Clocks(q) && i < |q| - 1
    ensures (Events(q)[..k] + Events(q)[k + 1..])[i].when == Without(q, k)[i].at % TWO_32
  {
    var j := if i < k then i else i + 1;
    assert Whens(Events(q))[j] == Clocks(q)[j];
  }

  /** The queue without its `k`th entry. */
  ghost function Without(q: seq<Entry<Event>>, k: nat): seq<Entry<Event>>
    requires k < |q|
  {
    q[..k] + q[k + 1..]
  }

  lemma WithoutPending(q: seq<Entry<Event>>, k: nat)
    requires Ordered(q) && k < |q|
    ensures Ordered(Without(q, k)) && Pending(Without(q, k)) == Pending(q) - {q[k]}
  {
  }

  lemma WithoutOne(q: seq<Entry<Event>>, k: nat, stamp: nat)
    requires Sound(q, stamp) && k < |q|
    ensures Sound(Without(q, k), stamp)
    ensures Pending(Without(q, k)) == Pending(q) - {q[k]}
    ensures forall t :: Near(q, t) ==> Near(Without(q, k), t)
  {
    assert Name(q, 0);
    WithoutPending(q, k);
    var p := Without(q, k);
    forall e | e in p ensures e in q {
      assert e in Pending(p);
    }
    forall t | Close(q, t) ensures Close(p, t) {
    }
  }

  /** `p` is what deleting the event, if it was there, leaves of the queue. */
  lemma OnlyOthersLeft(q: seq<Entry<Event>>, p: seq<Entry<Event>>, found: bool, k: nat, ev: Event, stamp: nat, t: int)
    requires Sound(q, stamp) && OthersNear(q, ev, t) && ev !in Events(p)
    requires if found then k < |q| && p == Without(q, k) else p == q
    ensures Near(p, t)
  {
    assert Name(q, 0);
    if found {
      WithoutOne(q, k, stamp);
    }
    forall e | e in p ensures e in q && e.ev != ev {
      assert e in Pending(p);
      var i :| 0 <= i < |p| && p[i] == e;
      assert Events(p)[i] == e.ev;
    }
  }

  lemma HeadOff(q: seq<Entry<Event>>, stamp: nat)
    requires Sound(q, stamp) && q != [] && Whens(Events(q)) == Clocks(q)
    ensures Sound(q[1..], stamp) && Events(q[1..]) == Events(q)[1..] && Whens(Events(q[1..])) == Clocks(q[1..])
    ensures forall t :: Near(q, t) ==> Near(q[1..], t)
  {
    WithoutOne(q, 0, stamp);
    SplicedOut(q, 0);
    assert Without(q, 0) == q[1..] && Events(q)[..0] + Events(q)[1..] == Events(q)[1..];
  }

  /** The wrapped comparison tells whether the first entry is due. */
  lemma HeadCompared(q: seq<Entry<Event>>, now: int)
    requires q != [] && Near(q, now)
    ensures CmpTicks(q[0].at % TWO_32, now % TWO_32) == now - q[0].at
    ensures CmpTimers(now % TWO_32, q[0].at % TWO_32) == q[0].at - now
  {
    assert Name(q, 0) && q[0] in q;
    WrappedIsTrue(q[0].at, now);
    WrappedIsTrue(now, q[0].at);
    SameComparison(now % TWO_32, q[0].at % TWO_32);
  }

  /** The first `c` entries are the due ones. */
  lemma {:induction false} DueIs(q: seq<Entry<Event>>, c: nat, now: int)
    requires c <= |q| && (forall i :: 0 <= i < c ==> q[i].at <= now) && (c < |q| ==> q[c].at > now)
    ensures Due(q, now) == q[..c] && Later(q, now) == q[c..]
    decreases c
  {
    if c > 0 {
      DueIs(q[1..], c - 1, now);
      assert q[..c] == [q[0]] + q[1..][..c - 1] && q[c..] == q[1..][c - 1..];
    }
  }

  /** A list without the `k`th node carries the queue without its `k`th entry. */
  lemma Dropped(list: List, q: seq<Entry<Event>>, k: nat, stamp: nat)
    requires Sound(q, stamp) && Whens(Events(q)) == Clocks(q) && k < |q|
    requires list.Valid() && list.nodes == Events(q)[..k] + Events(q)[k + 1..]
    ensures Carries(list, Without(q, k), stamp)
  {
    WithoutOne(q, k, stamp);
    SplicedOut(q, k);
    MakeCarries(list, Without(q, k), stamp);
  }

  /** After an event was linked in at the place the comparison found. */
  lemma Added(list: List, q: seq<Entry<Event>>, w: Entry<Event>, k: nat)
    requires Sound(q, w.stamp) && Near(q, w.at) && Placed(Clocks(q), w.at % TWO_32, CmpTicks, k)
    requires Whens(Events(q)) == Clocks(q) && w.ev.when == w.at % TWO_32
    requires list.Valid() && list.nodes == Events(q)[..k] + [w.ev] + Events(q)[k..]
    ensures Carries(list, Insert(q, w), w.stamp + 1) && Pending(Insert(q, w)) == Pending(q) + {w}
    ensures list.head == Insert(q, w)[0].ev
  {
    AddedInPlace(q, w, k);
    SplicedIn(q, w, k);
    list.HeadIsFirst();
    MakeCarries(list, Insert(q, w), w.stamp + 1);
  }

  /** The same with the other comparison, and whether the event comes first. */
  lemma AddedByTimer(list: List, q: seq<Entry<Event>>, w: Entry<Event>, k: nat)
    requires Sound(q, w.stamp) && Near(q, w.at) && Placed(Clocks(q), w.at % TWO_32, CmpTimers, k)
    requires Whens(Events(q)) == Clocks(q) && w.ev.when == w.at % TWO_32 && w.ev !in Events(q)
    requires list.Valid() && list.nodes == Events(q)[..k] + [w.ev] + Events(q)[k..]
    ensures Carries(list, Insert(q, w), w.stamp + 1) && Pending(Insert(q, w)) == Pending(q) + {w}
    ensures list.head == w.ev <==> forall i :: 0 <= i < |q| ==> w.at <= q[i].at
  {
    PlacedAlike(q, w.at, k);
    Added(list, q, w, k);
    FirstIsEarliest(q, w);
  }

  lemma PlacedAlike(q: seq<Entry<Event>>, at: int, k: nat)
    requires Placed(Clocks(q), at % TWO_32, CmpTimers, k)
    ensures Placed(Clocks(q), at % TWO_32, CmpTicks, k)
  {
    forall i | 0 <= i < |q| ensures CmpTimers(at % TWO_32, Clocks(q)[i]) == CmpTicks(at % TWO_32, Clocks(q)[i]) {
      SameComparison(at % TWO_32, Clocks(q)[i]);
    }
  }

  lemma FirstIsEarliest(q: seq<Entry<Event>>, w: Entry<Event>)
    requires Sound(q, w.stamp) && w.ev !in Events(q)
    ensures Insert(q, w)[0].ev == w.ev <==> forall i :: 0 <= i < |q| ==> w.at <= q[i].at
  {
    assert Name(q, 0);
    if q != [] {
      assert Events(q)[0] == q[0].ev;
      if q[0].at >= w.at {
        forall i | 0 <= i < |q| ensures w.at <= q[i].at {
          assert i > 0 ==> Before(q[0], q[i]);
        }
      }
    }
  }

  lemma EventsTake(q: seq<Entry<Event>>, c: nat)
    requires c <= |q|
    ensures Events(q)[..c] == Events(q[..c])
  {
  }

  // ---------------------------------------------------------------------------------------------------
  // Lists that carry a queue
  // ---------------------------------------------------------------------------------------------------

  method AddByTicks(list: List, ev: Event, ghost q: seq<Entry<Event>>, ghost w: Entry<Event>,
                    ghost next: seq<Entry<Event>>)
    requires next == Insert(q, w)
    requires Carries(list, q, w.stamp) && Near(q, w.at)
    requires ev == w.ev && ev !in list.nodes && ev.when == w.at % TWO_32
    modifies list, list.nodes`next, ev`next
    ensures Carries(list, next, w.stamp + 1) && Pending(next) == Pending(q) + {w}
  {
    UseCarries(list, q, w.stamp);
    ghost var k := list.AddSorted(ev, CmpTicks);
    Added(list, q, w, k);
  }

  method AddByTimer(list: List, ev: Event, ghost q: seq<Entry<Event>>, ghost w: Entry<Event>,
                    ghost next: seq<Entry<Event>>)
    returns (first: bool)
    requires next == Insert(q, w)
    requires Carries(list, q, w.stamp) && Near(q, w.at)
    requires ev == w.ev && ev !in list.nodes && ev.when == w.at % TWO_32
    modifies list, list.nodes`next, ev`next
    ensures Carries(list, next, w.stamp + 1) && Pending(next) == Pending(q) + {w}
    ensures first <==> forall i :: 0 <= i < |q| ==> w.at <= q[i].at
  {
    UseCarries(list, q, w.stamp);
    ghost var k := list.AddSorted(ev, CmpTimers);
    AddedByTimer(list, q, w, k);
    first := list.head == ev;
  }

  method RemoveEvent(list: List, ev: Event, ghost q: seq<Entry<Event>>, ghost stamp: nat)
    returns (found: bool, ghost k: nat)
    requires Carries(list, q, stamp)
    modifies list, list.nodes`next
    ensures found == (ev in old(list.nodes)) && ev !in list.nodes && |old(list.nodes)| == |q|
    ensures found ==> k < |q| && q[k].ev == ev && Carries(list, Without(q, k), stamp)
    ensures found ==> list.nodes == old(list.nodes)[..k] + old(list.nodes)[k + 1..]
    ensures !found ==> Carries(list, q, stamp) && list.nodes == old(list.nodes)
  {
    UseCarries(list, q, stamp);
    found, k := list.Remove(ev);
    if found {
      Dropped(list, q, k, stamp);
    } else {
      MakeCarries(list, q, stamp);
    }
  }

  method TakeFirst(list: List, ghost q: seq<Entry<Event>>, ghost stamp: nat) returns (ev: Event)
    requires Carries(list, q, stamp) && list.head != null
    modifies list, list.nodes`next
    ensures q != [] && Carries(list, q[1..], stamp) && |old(list.nodes)| == |q|
    ensures list.nodes == old(list.nodes)[1..] && ev == old(list.nodes)[0] == q[0].ev && ev.next == null
    ensures forall t :: Near(q, t) ==> Near(q[1..], t)
  {
    UseCarries(list, q, stamp);
    list.HeadIsFirst();
    HeadOff(q, stamp);
    ev := list.Pop();
    MakeCarries(list, q[1..], stamp);
  }

  /** Removing the first node, by the walk that finds any node. */
  method RemoveFirst(list: List, ev: Event, ghost q: seq<Entry<Event>>, ghost stamp: nat)
    requires Carries(list, q, stamp) && ev == list.head
    modifies list, list.nodes`next
    ensures q != [] && Carries(list, q[1..], stamp) && |old(list.nodes)| == |q|
    ensures list.nodes == old(list.nodes)[1..] && ev == old(list.nodes)[0] == q[0].ev
    ensures forall t :: Near(q, t) ==> Near(q[1..], t)
  {
    UseCarries(list, q, stamp);
    list.HeadIsFirst();
    HeadOff(q, stamp);
    ghost var k;
    var found;
    found, k := list.Remove(ev);
    MakeCarries(list, q[1..], stamp);
  }

  /** The first node and what the comparisons say of it. */
  lemma FirstCompared(list: List, q: seq<Entry<Event>>, stamp: nat, now: int)
    requires Carries(list, q, stamp) && Near(q, now)
    ensures |list.nodes| == |q| && (list.head == null <==> q == [])
    ensures q != [] ==> && list.head == list.nodes[0] == q[0].ev
                        && CmpTicks(list.head.when, now % TWO_32) == now - q[0].at
                        && CmpTimers(now % TWO_32, list.head.when) == q[0].at - now
  {
    UseCarries(list, q, stamp);
    list.HeadIsFirst();
    if q != [] {
      HeadCompared(q, now);
      assert Whens(list.nodes)[0] == Clocks(q)[0];
    }
  }

  lemma CarriesSound(list: List, q: seq<Entry<Event>>, stamp: nat)
    requires Carries(list, q, stamp)
    ensures Sound(q, stamp)
  {
    UseCarries(list, q, stamp);
  }

  /** The list carries `p`, what deleting the event, if it was there, has left of the queue `q`. */
  lemma OthersLeft(list: List, q: seq<Entry<Event>>, p: seq<Entry<Event>>, found: bool, k: nat, ev: Event,
                   stamp: nat, t: int)
    requires Sound(q, stamp) && OthersNear(q, ev, t) && Carries(list, p, stamp) && ev !in list.nodes
    requires if found then k < |q| && p == Without(q, k) else p == q
    ensures Near(p, t)
  {
    UseCarries(list, p, stamp);
    OnlyOthersLeft(q, p, found, k, ev, stamp, t);
  }

  /** Of the queue `start` with these nodes, the first `c` entries, all due, have been taken: their nodes are `got`. */
  ghost predicate Progress(start: seq<Entry<Event>>, nodes: seq<Event>, c: nat, now: int,
                           q: seq<Entry<Event>>, rest: seq<Event>, got: seq<Event>) {
    forall k {:trigger Name(start, k)} :: Name(start, k) ==>
      && c <= |start| == |nodes| && q == start[c..] && rest == nodes[c..] && got == nodes[..c]
      && forall i :: 0 <= i < c ==> start[i].at <= now
  }

  lemma ProgressStarts(start: seq<Entry<Event>>, nodes: seq<Event>, now: int)
    requires |nodes| == |start|
    ensures Progress(start, nodes, 0, now, start, nodes, [])
  {
  }

  lemma ProgressStep(start: seq<Entry<Event>>, nodes: seq<Event>, c: nat, now: int,
                     q: seq<Entry<Event>>, rest: seq<Event>, got: seq<Event>)
    requires Progress(start, nodes, c, now, q, rest, got) && q != [] && q[0].at <= now
    ensures rest != [] && Progress(start, nodes, c + 1, now, q[1..], rest[1..], got + [rest[0]]) && c < |start|
  {
    assert Name(start, 0);
  }

  lemma ProgressEnds(start: seq<Entry<Event>>, nodes: seq<Event>, c: nat, now: int,
                     q: seq<Entry<Event>>, rest: seq<Event>, got: seq<Event>)
    requires Progress(start, nodes, c, now, q, rest, got) && (q == [] || q[0].at > now) && nodes == Events(start)
    ensures q == Later(start, now) && got == Events(Due(start, now))
    ensures Due(start, now) != [] <==> c > 0
  {
    assert Name(start, 0);
    DueIs(start, c, now);
    EventsTake(start, c);
  }

  class EvQueue {
    const events: List
    var ran: seq<Event>
    ghost var queue: seq<Entry<Event>>
    ghost var stamp: nat

    ghost predicate Valid()
      reads this`queue, this`stamp, events, events.nodes
    {
      Carries(events, queue, stamp)
    }

    constructor ()
      ensures Valid() && fresh(events) && queue == [] && ran == []
    {
      events := new List();
      ran := [];
      queue := [];
      stamp := 0;
    }

    /** Adds an event whose true time is `at`. */
    method Add(ev: Event, ghost at: int)
      requires Valid() && ev !in events.nodes && ev.when == at % TWO_32 && Near(queue, at)
      modifies this`queue, this`stamp, events, events.nodes`next, ev`next
      ensures Valid() && queue == Insert(old(queue), Entry(ev, at, old(stamp)))
      ensures Pending(queue) == Pending(old(queue)) + {Entry(ev, at, old(stamp))}
    {
      ghost var q, w := queue, Entry(ev, at, stamp);
      queue, stamp := Insert(queue, w), stamp + 1;
      AddByTicks(events, ev, q, w, queue);
    }

    method Del(ev: Event) returns (found: bool, ghost k: nat)
      requires Valid()
      modifies this`queue, events, events.nodes`next
      ensures Valid() && found == (ev in old(events.nodes)) && ev !in events.nodes
      ensures |old(events.nodes)| == |old(queue)|
      ensures !found ==> queue == old(queue) && events.nodes == old(events.nodes)
      ensures found ==> k < |old(queue)| && old(queue)[k].ev == ev && queue == Without(old(queue), k)
      ensures found ==> events.nodes == old(events.nodes)[..k] + old(events.nodes)[k + 1..]
      ensures forall n <- events.nodes :: n in old(events.nodes)
    {
      found, k := RemoveEvent(events, ev, queue, stamp);
      if found {
        queue := Without(queue, k);
      }
    }

    /** Moves an event to another time, whether or not it was pending, and however far its old time is off. */
    method Reschedule(ev: Event, t: int, ghost at: int)
      requires Valid() && t == at % TWO_32 && OthersNear(queue, ev, at)
      modifies this`queue, this`stamp, events, events.nodes`next, ev
      ensures Valid() && ev.when == t
      ensures var w := Entry(ev, at, old(stamp));
              if ev in old(events.nodes)
              then exists k :: && 0 <= k < |old(queue)| && old(queue)[k].ev == ev
                               && queue == Insert(Without(old(queue), k), w)
              else queue == Insert(old(queue), w)
    {
      ghost var before, w := queue, Entry(ev, at, stamp);
      CarriesSound(events, queue, stamp);
      ghost var k;
      var found;
      found, k := Del(ev);
      OthersLeft(events, before, queue, found, k, ev, stamp, at);
      ev.when := t;
      Add(ev, at);
      assert found ==> queue == Insert(Without(before, k), w);
    }

    /** Takes the first event if it is due at `t`, whose true time is `now`. */
    method Pop(t: int, ghost now: int) returns (ev: Event?)
      requires Valid() && t == now % TWO_32 && Near(queue, now)
      modifies this`queue, events, events.nodes`next
      ensures Valid() && Near(queue, now)
      ensures |old(events.nodes)| == |old(queue)|
      ensures ev == null <==> old(queue) == [] || old(queue)[0].at > now
      ensures ev == null ==> queue == old(queue) && events.nodes == old(events.nodes)
      ensures ev != null ==> queue == old(queue)[1..] && events.nodes == old(events.nodes)[1..]
      ensures ev != null ==> ev == old(events.nodes)[0] == old(queue)[0].ev && ev.next == null
    {
      FirstCompared(events, queue, stamp, now);
      var first := events.head;
      if first == null {
        return null;
      }
      if CmpTicks(first.when, t) < 0 {
        return null;
      }
      ev := TakeFirst(events, queue, stamp);
      queue := queue[1..];
    }

    /** One turn of the loop of `Run`. */
    method RunNext(t: int, ghost now: int, ghost start: seq<Entry<Event>>, ghost nodes: seq<Event>, ghost c: nat,
                   ghost got: seq<Event>) returns (ev: Event?)
      requires Valid() && t == now % TWO_32 && Near(queue, now)
      requires Progress(start, nodes, c, now, queue, events.nodes, got)
      modifies this`queue, this`ran, events, events.nodes`next
      ensures Valid() && Near(queue, now)
      ensures forall i :: 0 <= i < |events.nodes| ==> events.nodes[i] in old(events.nodes)
      ensures ev == null ==> ran == old(ran) && (queue == [] || queue[0].at > now)
                             && Progress(start, nodes, c, now, queue, events.nodes, got)
      ensures ev != null ==> ran == old(ran) + [ev] && c < |start|
                             && Progress(start, nodes, c + 1, now, queue, events.nodes, got + [ev])
    {
      ghost var q, rest := queue, events.nodes;
      ev := Pop(t, now);
      if ev != null {
        ProgressStep(start, nodes, c, now, q, rest, got);
        ran := ran + [ev];
      }
    }

    /** Runs what is due. The events' own `run` leaves the queue alone. */
    method Run(t: int, ghost now: int) returns (found: bool)
      requires Valid() && t == now % TWO_32 && Near(queue, now)
      modifies this`queue, this`ran, events, events.nodes`next
      ensures Valid() && queue == Later(old(queue), now)
      ensures ran == old(ran) + Events(Due(old(queue), now))
      ensures found <==> Due(old(queue), now) != []
    {
      found := false;
      ghost var start, nodes, got: seq<Event> := queue, events.nodes, [];
      ghost var c: nat := 0;
      NodesAreEvents();
      ProgressStarts(start, nodes, now);
      while true
        invariant Valid() && Near(queue, now)
        invariant c <= |start| && found == (c > 0)
        invariant forall i :: 0 <= i < |events.nodes| ==> events.nodes[i] in nodes
        invariant Progress(start, nodes, c, now, queue, events.nodes, got) && ran == old(ran) + got
        decreases |start| - c
      {
        var ev := RunNext(t, now, start, nodes, c, got);
        if ev == null {
          ProgressEnds(start, nodes, c, now, queue, events.nodes, got);
          return;
        }
        got, c := got + [ev], c + 1;
        found := true;
      }
    }

    lemma NodesAreEvents()
      requires Valid()
      ensures events.nodes == Events(queue)
    {
      UseCarries(events, queue, stamp);
    }
  }

  class TimerQueue {
    const events: List
    var posted: seq<Event>
    ghost var queue: seq<Entry<Event>>
    ghost var stamp: nat

    ghost predicate Valid()
      reads this`queue, this`stamp, events, events.nodes
    {
      Carries(events, queue, stamp)
    }

    constructor ()
      ensures Valid() && fresh(events) && queue == [] && posted == []
    {
      events := new List();
      posted := [];
      queue := [];
      stamp := 0;
    }

    /** True when the new event comes first. */
    method Add(ev: Event, ghost at: int) returns (first: bool)
      requires Valid() && ev !in events.nodes && ev.when == at % TWO_32 && Near(queue, at)
      modifies this`queue, this`stamp, events, events.nodes`next, ev`next
      ensures Valid() && queue == Insert(old(queue), Entry(ev, at, old(stamp)))
      ensures Pending(queue) == Pending(old(queue)) + {Entry(ev, at, old(stamp))}
      ensures first <==> forall i :: 0 <= i < |old(queue)| ==> at <= old(queue)[i].at
    {
      ghost var q, w := queue, Entry(ev, at, stamp);
      queue, stamp := Insert(queue, w), stamp + 1;
      first := AddByTimer(events, ev, q, w, queue);
    }

    /** One turn of `Check`, with events pending: posts the first if it is due at `clock`. */
    method PostFirst(clock: int, ghost now: int) returns (diff: int)
      requires Valid() && clock == now % TWO_32 && Near(queue, now) && events.head != null
      modifies this`queue, this`posted, events, events.nodes`next
      ensures Valid() && Near(queue, now)
      ensures |old(events.nodes)| == |old(queue)| && old(queue) != [] && diff == old(queue)[0].at - now
      ensures diff > 0 ==> queue == old(queue) && events.nodes == old(events.nodes) && posted == old(posted)
      ensures diff <= 0 ==> queue == old(queue)[1..] && events.nodes == old(events.nodes)[1..]
      ensures diff <= 0 ==> posted == old(posted) + [old(events.nodes)[0]]
    {
      FirstCompared(events, queue, stamp, now);
      var event := events.head;
      diff := CmpTimers(clock, event.when);
      if diff <= 0 {
        RemoveFirst(events, event, queue, stamp);
        queue := queue[1..];
        posted := posted + [event];
      }
    }

    lemma NodesAreEvents()
      requires Valid()
      ensures events.nodes == Events(queue) && (events.head == null <==> queue == [])
    {
      UseCarries(events, queue, stamp);
      events.HeadIsFirst();
    }

    /** Posts what is due at `clock`, whose true time is `now`, and tells how long until the next event. */
    method Check(clock: int, ghost now: int) returns (wait: int)
      requires Valid() && clock == now % TWO_32 && Near(queue, now)
      modifies this`queue, this`posted, events, events.nodes`next
      ensures Valid() && queue == Later(old(queue), now)
      ensures posted == old(posted) + Events(Due(old(queue), now))
      ensures wait == if queue == [] then 0 else queue[0].at - now
    {
      ghost var start, nodes, got: seq<Event> := queue, events.nodes, [];
      ghost var c: nat := 0;
      NodesAreEvents();
      ProgressStarts(start, nodes, now);
      while events.head != null
        invariant Valid() && Near(queue, now) && c <= |start|
        invariant nodes == old(events.nodes) && forall i :: 0 <= i < |events.nodes| ==> events.nodes[i] in nodes
        invariant Progress(start, nodes, c, now, queue, events.nodes, got) && posted == old(posted) + got
        decreases |start| - c
      {
        ghost var q, rest := queue, events.nodes;
        var diff := PostFirst(clock, now);
        if diff > 0 {
          ProgressEnds(start, nodes, c, now, q, rest, got);
          return diff;
        }
        ProgressStep(start, nodes, c, now, q, rest, got);
        got, c := got + [rest[0]], c + 1;
      }
      NodesAreEvents();
      ProgressEnds(start, nodes, c, now, queue, events.nodes, got);
      return 0;
    }
  }
}
