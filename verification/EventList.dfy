/**
 Intrusive singly linked lists: the links are the `next` fields of the events themselves. The walks keep a
 pointer to the link they may change, here the node that holds it, or null for the head of the list.
 */
module EventList {

  class Event {
    var next: Event?
    var when: int

    constructor (when: int)
      ensures next == null && this.when == when
    {
      next := null;
      this.when := when;
    }
  }

  ghost function At(nodes: seq<Event>, i: nat): Event? {
    if i < |nodes| then nodes[i] else null
  }

  /** The times of some events, in order. */
  ghost function Whens(nodes: seq<Event>): (r: seq<int>)
    reads nodes`when
    ensures |r| == |nodes| && forall i :: 0 <= i < |nodes| ==> r[i] == nodes[i].when
  {
    if nodes == [] then [] else [nodes[0].when] + Whens(nodes[1..])
  }

  /** Place `k` is the first whose time `when` does not come after. */
  ghost predicate Placed(whens: seq<int>, when: int, cmp: (int, int) -> int, k: nat) {
    && k <= |whens|
    && (forall i :: 0 <= i < k ==> cmp(when, whens[i]) < 0)
    && (k < |whens| ==> cmp(when, whens[k]) >= 0)
  }

  /** Names the nodes a fact is wanted of; until they are named, distinctness is not unfolded. */
  ghost predicate NameNodes(nodes: seq<Event>, k: int) {
    true
  }

  ghost predicate Distinct(nodes: seq<Event>) {
    forall k {:trigger NameNodes(nodes, k)} :: NameNodes(nodes, k) ==> NoRepeats(nodes)
  }

  ghost predicate NoRepeats(nodes: seq<Event>) {
    forall i, j :: 0 <= i < j < |nodes| ==> nodes[i] != nodes[j]
  }

  lemma DistinctWith(nodes: seq<Event>, k: nat, w: Event)
    requires Distinct(nodes) && w !in nodes && k <= |nodes|
    ensures Distinct(nodes[..k] + [w] + nodes[k..])
  {
    assert NameNodes(nodes, 0);
    var more := nodes[..k] + [w] + nodes[k..];
    forall i | 0 <= i < |more| ensures more[i] == if i < k then nodes[i] else if i == k then w else nodes[i - 1] {
    }
  }

  lemma DistinctWithout(nodes: seq<Event>, k: nat)
    requires Distinct(nodes) && k < |nodes|
    ensures Distinct(nodes[..k] + nodes[k + 1..])
  {
    assert NameNodes(nodes, 0);
    var less := nodes[..k] + nodes[k + 1..];
    forall i | 0 <= i < |less| ensures less[i] == if i < k then nodes[i] else nodes[i + 1] {
    }
  }

  lemma OnlyOnce(nodes: seq<Event>, k: nat)
    requires Distinct(nodes) && k < |nodes|
    ensures nodes[k] !in nodes[..k] + nodes[k + 1..]
  {
    assert NameNodes(nodes, 0);
  }

  lemma AtSpliced(nodes: seq<Event>, k: nat, w: Event, i: nat)
    requires k <= |nodes|
    ensures At(nodes[..k] + [w] + nodes[k..], i) == if i < k then nodes[i] else if i == k then w else At(nodes, i - 1)
  {
  }

  lemma AtCut(nodes: seq<Event>, k: nat, i: nat)
    requires k < |nodes|
    ensures At(nodes[..k] + nodes[k + 1..], i) == if i < k then nodes[i] else At(nodes, i + 1)
  {
  }

  lemma ApartFrom(nodes: seq<Event>, i: nat, j: nat)
    requires Distinct(nodes) && i < |nodes| && j < |nodes| && i != j
    ensures nodes[i] != nodes[j]
  {
    assert NameNodes(nodes, 0);
  }

  ghost predicate NameList(list: List, k: int) {
    true
  }

  class List {
    var head: Event?
    ghost var nodes: seq<Event>

    ghost predicate Valid()
      reads this, nodes`next
    {
      forall k {:trigger NameList(this, k)} :: NameList(this, k) ==> Linked()
    }

    ghost predicate Linked()
      reads this, nodes`next
    {
      && head == At(nodes, 0)
      && (forall i :: 0 <= i < |nodes| ==> nodes[i].next == At(nodes, i + 1))
      && Distinct(nodes)
    }

    lemma HeadIsFirst()
      requires Valid()
      ensures head == At(nodes, 0)
    {
      assert NameList(this, 0);
    }

    constructor ()
      ensures Valid() && nodes == []
    {
      head := null;
      nodes := [];
    }

    /** The node whose link is the `k`th, or null for the head of the list. */
    ghost predicate Holds(prev: Event?, k: nat)
      reads this
    {
      k <= |nodes| && prev == if k == 0 then null else nodes[k - 1]
    }

    method Link(prev: Event?, w: Event, cur: Event?, ghost k: nat)
      requires Valid() && w !in nodes && Holds(prev, k) && cur == At(nodes, k)
      modifies this, nodes`next, w`next
      ensures Valid() && nodes == old(nodes)[..k] + [w] + old(nodes)[k..]
    {
      assert NameList(this, 0);
      ghost var before := nodes;
      w.next := cur;
      if prev == null {
        head := w;
      } else {
        prev.next := w;
      }
      forall j | 0 <= j < |before| && j + 1 != k ensures before[j].next == At(before, j + 1) {
        if k > 0 {
          ApartFrom(before, j, k - 1);
        }
      }
      DistinctWith(before, k, w);
      nodes := before[..k] + [w] + before[k..];
      AtSpliced(before, k, w, 0);
      forall i | 0 <= i < |nodes| ensures nodes[i].next == At(nodes, i + 1) {
        AtSpliced(before, k, w, i);
        AtSpliced(before, k, w, i + 1);
      }
    }

    method Unlink(prev: Event?, w: Event, ghost k: nat)
      requires Valid() && Holds(prev, k) && k < |nodes| && nodes[k] == w
      modifies this, nodes`next, w`next
      ensures Valid() && nodes == old(nodes)[..k] + old(nodes)[k + 1..] && w.next == null
    {
      assert NameList(this, 0);
      ghost var before := nodes;
      if prev == null {
        head := w.next;
      } else {
        prev.next := w.next;
      }
      w.next := null;
      forall j | 0 <= j < |before| && j != k
        ensures before[j].next == if j + 1 == k then At(before, k + 1) else At(before, j + 1)
      {
        ApartFrom(before, j, k);
        if k > 0 && j + 1 != k {
          ApartFrom(before, j, k - 1);
        }
      }
      DistinctWithout(before, k);
      nodes := before[..k] + before[k + 1..];
      AtCut(before, k, 0);
      forall i | 0 <= i < |nodes| ensures nodes[i].next == At(nodes, i + 1) {
        AtCut(before, k, i);
        AtCut(before, k, i + 1);
      }
    }

    /** Puts `w` before the first node that it does not come after. */
    method AddSorted(w: Event, cmp: (int, int) -> int) returns (ghost k: nat)
      requires Valid() && w !in nodes
      modifies this, nodes`next, w`next
      ensures Valid() && k <= |old(nodes)| && nodes == old(nodes)[..k] + [w] + old(nodes)[k..]
      ensures Placed(old(Whens(nodes)), w.when, cmp, k)
    {
      assert NameList(this, 0);
      var prev: Event?, cur := null, head;
      k := 0;
      while cur != null && cmp(w.when, cur.when) < 0
        invariant Holds(prev, k) && cur == At(nodes, k)
        invariant forall i :: 0 <= i < k ==> cmp(w.when, Whens(nodes)[i]) < 0
        decreases |nodes| - k
      {
        prev, cur := cur, cur.next;
        k := k + 1;
      }
      assert Placed(Whens(nodes), w.when, cmp, k);
      Link(prev, w, cur, k);
    }

    method Pop() returns (w: Event?)
      requires Valid()
      modifies this, nodes`next
      ensures Valid() && w == old(head) && w == At(old(nodes), 0)
      ensures nodes == if w == null then [] else old(nodes)[1..]
      ensures w != null ==> w.next == null
    {
      assert NameList(this, 0);
      w := head;
      if w != null {
        assert NameNodes(nodes, 0);
        head := w.next;
        w.next := null;
        nodes := nodes[1..];
      }
    }

    method Remove(w: Event) returns (found: bool, ghost k: nat)
      requires Valid()
      modifies this, nodes`next
      ensures Valid() && found == (w in old(nodes))
      ensures found ==> k < |old(nodes)| && old(nodes)[k] == w && nodes == old(nodes)[..k] + old(nodes)[k + 1..]
      ensures found ==> w.next == null
      ensures found ==> w !in nodes && forall i :: 0 <= i < k ==> old(nodes)[i] != w
      ensures !found ==> nodes == old(nodes) && forall n :: n in nodes ==> n.next == old(n.next)
    {
      assert NameList(this, 0);
      var prev: Event?, cur := null, head;
      k := 0;
      while cur != null && cur != w
        invariant Holds(prev, k) && cur == At(nodes, k)
        invariant forall i :: 0 <= i < k ==> nodes[i] != w
        decreases |nodes| - k
      {
        prev, cur := cur, cur.next;
        k := k + 1;
      }
      found := cur != null;
      if found {
        OnlyOnce(nodes, k);
        Unlink(prev, w, k);
      }
    }

    /** Adds at the end. */
    method Append(w: Event)
      requires Valid() && w !in nodes
      modifies this, nodes`next, w`next
      ensures Valid() && nodes == old(nodes) + [w]
    {
      assert NameList(this, 0);
      var prev: Event?, cur := null, head;
      ghost var k := 0;
      while cur != null
        invariant Holds(prev, k) && cur == At(nodes, k)
        decreases |nodes| - k
      {
        prev, cur := cur, cur.next;
        k := k + 1;
      }
      Link(prev, w, cur, k);
    }
  }
}
