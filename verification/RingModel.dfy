/**
 A ring of slots with free-running indices, as a value: the indices wrap with their type, and only the low bits
 choose a slot. Runs of pushes and pops follow a bounded first-in, first-out queue exactly when they are guarded.
 */
module RingModel {
  import opened BitXor
  import opened Modulo

  function And(a: nat, b: nat): nat
    decreases a + b
  {
    if a == 0 || b == 0 then 0 else 2 * And(a / 2, b / 2) + (if a % 2 == 1 && b % 2 == 1 then 1 else 0)
  }

  /** Masking with one less than a power of two is the remainder. */
  lemma {:induction false} MaskIsModulo(a: nat, k: nat)
    ensures And(a, Pow2(k) - 1) == a % Pow2(k)
    decreases k
  {
    if k > 0 {
      MaskIsModulo(a / 2, k - 1);
      MaskStep(a, Pow2(k - 1));
      HalfModulo(a, Pow2(k - 1));
    }
  }

  lemma MaskStep(a: nat, p: nat)
    requires p > 0
    ensures And(a, 2 * p - 1) == 2 * And(a / 2, p - 1) + a % 2
  {
  }

  lemma HalfModulo(a: nat, p: nat)
    requires p > 0
    ensures a % (2 * p) == 2 * (a / 2 % p) + a % 2
  {
    var q, r := a / 2 / p, a / 2 % p;
    assert a / 2 == q * p + r;
    assert a == q * (2 * p) + (2 * r + a % 2) by { assert q * (2 * p) == 2 * (q * p); }
    QuotientUnique(a, 2 * p, q, 2 * r + a % 2);
  }

  /** `-n` in an index type of `w` bits. */
  function Negated(n: nat, w: nat): nat
    requires n < Pow2(w)
  {
    if n == 0 then 0 else Pow2(w) - n
  }

  lemma {:induction false} Complement(n: nat, w: nat)
    requires n < Pow2(w)
    ensures And(n, Pow2(w) - 1 - n) == 0
    decreases w
  {
    if n > 0 {
      Complement(n / 2, w - 1);
      assert (Pow2(w) - 1 - n) / 2 == Pow2(w - 1) - 1 - n / 2;
    }
  }

  ghost predicate IsPow2(n: nat) {
    exists k: nat :: n == Pow2(k)
  }

  lemma DoubleIsPow2(n: nat)
    requires n > 0
    ensures IsPow2(2 * n) <==> IsPow2(n)
  {
    if k: nat :| n == Pow2(k) {
      assert Pow2(k + 1) == 2 * n;
    }
    if k: nat :| 2 * n == Pow2(k) {
      assert n == Pow2(k - 1);
    }
  }

  lemma OddIsPow2(n: nat)
    ensures IsPow2(2 * n + 1) <==> n == 0
  {
    if n == 0 {
      assert Pow2(0) == 1;
    }
  }

  lemma AndOfDoubles(a: nat, b: nat, x: nat, y: nat)
    requires x < 2 && y < 2
    ensures And(2 * a + x, 2 * b + y) == 2 * And(a, b) + (if x == 1 && y == 1 then 1 else 0)
  {
    assert (2 * a + x) / 2 == a && (2 * b + y) / 2 == b;
  }

  lemma AndOfEven(m: nat, w: nat)
    requires 0 < m < Pow2(w)
    ensures 2 * m < Pow2(w + 1) && And(2 * m, Negated(2 * m, w + 1)) == 2 * And(m, Negated(m, w))
  {
    assert Negated(2 * m, w + 1) == 2 * Negated(m, w);
    AndOfDoubles(m, Negated(m, w), 0, 0);
  }

  lemma AndOfOdd(m: nat, w: nat)
    requires m < Pow2(w)
    ensures 2 * m + 1 < Pow2(w + 1) && And(2 * m + 1, Negated(2 * m + 1, w + 1)) == 1
  {
    var c := Pow2(w) - 1 - m;
    assert Negated(2 * m + 1, w + 1) == 2 * c + 1;
    AndOfDoubles(m, c, 1, 1);
    Complement(m, w);
  }

  /** The assertion of the constructor accepts the powers of two and nothing else. */
  lemma {:induction false} PowerTest(n: nat, w: nat)
    requires 0 < n < Pow2(w)
    ensures And(n, Negated(n, w)) == n <==> IsPow2(n)
    decreases w
  {
    var m := n / 2;
    if n % 2 == 0 {
      assert n == 2 * m;
      PowerTest(m, w - 1);
      AndOfEven(m, w - 1);
      DoubleIsPow2(m);
    } else {
      assert n == 2 * m + 1;
      AndOfOdd(m, w - 1);
      OddIsPow2(m);
    }
  }

  lemma {:induction false} PowersDivide(k: nat, w: nat)
    requires k <= w
    ensures Pow2(w) == Pow2(k) * Pow2(w - k)
    decreases w
  {
    if k < w {
      PowersDivide(k, w - 1);
      assert Pow2(w) == 2 * (Pow2(k) * Pow2(w - 1 - k));
      Associate(2, Pow2(k), Pow2(w - 1 - k));
    }
  }

  lemma Associate(a: nat, b: nat, c: nat)
    ensures a * (b * c) == b * (a * c)
  {
  }

  /** The slot of a count does not change when its index wraps. */
  lemma WrapKeepsSlot(x: nat, n: nat, m: nat)
    requires n > 0 && m > 0
    ensures n * m > 0 && x % (n * m) % n == x % n
  {
    AtLeastOnce(n, m);
    var big := n * m;
    var q, r := x / big, x % big;
    assert x == big * q + r;
    var p, t := r / n, r % n;
    assert r == n * p + t;
    NestedRemainder(x, n, m, q, p, t);
  }

  lemma NestedRemainder(x: nat, n: nat, m: nat, q: nat, p: nat, t: nat)
    requires t < n && x == n * m * q + (n * p + t)
    ensures x % n == t
  {
    MultiplyThree(n, m, q);
    Distributes(n, m * q, p);
    QuotientUnique(x, n, m * q + p, t);
  }

  lemma MultiplyThree(a: nat, b: nat, c: nat)
    ensures a * b * c == a * (b * c)
  {
  }

  lemma Distributes(n: nat, a: nat, b: nat)
    ensures n * (a + b) == n * a + n * b
  {
  }

  lemma OtherSlot(i: nat, j: nat, n: nat)
    requires i < j < i + n
    ensures i % n != j % n
  {
    var r := i % n + (j - i);
    if r < n {
      QuotientUnique(j, n, i / n, r);
    } else {
      Distributes(n, i / n, 1);
      QuotientUnique(j, n, i / n + 1, r - n);
    }
  }

  /** `wr - rd` in the index type. */
  function Difference(wr: nat, rd: nat, m: nat): nat
    requires wr < m && rd < m
  {
    if wr >= rd then wr - rd else wr + m - rd
  }

  lemma CountsDiffer(pushes: nat, pops: nat, m: nat)
    requires pops <= pushes < pops + m
    ensures Difference(pushes % m, pops % m, m) == pushes - pops
  {
    var d := pushes - pops;
    var r := pops % m;
    if r + d < m {
      QuotientUnique(pushes, m, pops / m, r + d);
    } else {
      Distributes(m, pops / m, 1);
      QuotientUnique(pushes, m, pops / m + 1, r + d - m);
    }
  }

  lemma NextIndex(x: nat, m: nat)
    requires m > 1
    ensures (x + 1) % m == if x % m + 1 == m then 0 else x % m + 1
  {
    Distributes(m, x / m, 1);
    if x % m + 1 == m {
      QuotientUnique(x + 1, m, x / m + 1, 0);
    } else {
      QuotientUnique(x + 1, m, x / m, x % m + 1);
    }
  }

  lemma SlotOf(count: nat, k: nat, w: nat)
    requires k <= w
    ensures And(count % Pow2(w), Pow2(k) - 1) == count % Pow2(k)
  {
    MaskIsModulo(count % Pow2(w), k);
    PowersDivide(k, w);
    WrapKeepsSlot(count, Pow2(k), Pow2(w - k));
  }

  // ---------------------------------------------------------------------------------------------------
  // The ring
  // ---------------------------------------------------------------------------------------------------

  /** The slots and the two indices, of `width` bits. */
  datatype Ring<T> = Ring(data: seq<T>, rd: nat, wr: nat, width: nat) {
    /** What the constructor makes sure of, and every call keeps. */
    ghost predicate Valid() {
      && (exists k: nat :: k < width && |data| == Pow2(k))
      && |data| < Pow2(width) && rd < Pow2(width) && wr < Pow2(width)
    }

    /** The slot of an index. */
    function Slot(idx: nat): nat
      requires |data| > 0
    {
      And(idx, |data| - 1)
    }

    /** The next value of an index, which wraps with its type. */
    function Next(idx: nat): nat {
      if idx + 1 == Pow2(width) then 0 else idx + 1
    }

    predicate Empty() {
      rd == wr
    }

    function Size(): nat
      requires rd < Pow2(width) && wr < Pow2(width)
    {
      Difference(wr, rd, Pow2(width))
    }

    predicate Full()
      requires rd < Pow2(width) && wr < Pow2(width)
    {
      Size() == |data|
    }
  }

  lemma SlotInside<T>(r: Ring<T>, idx: nat)
    requires r.Valid()
    ensures |r.data| > 0 && r.Slot(idx) == idx % |r.data| < |r.data|
  {
    var k: nat :| k < r.width && |r.data| == Pow2(k);
    MaskIsModulo(idx, k);
  }

  function Push<T>(r: Ring<T>, val: T): (s: Ring<T>)
    requires r.Valid()
    ensures s.Valid() && s.width == r.width && |s.data| == |r.data|
  {
    SlotInside(r, r.wr);
    r.(data := r.data[r.Slot(r.wr) := val], wr := r.Next(r.wr))
  }

  /** The value that a pop gives. */
  function Peek<T>(r: Ring<T>): T
    requires r.Valid()
  {
    SlotInside(r, r.rd);
    r.data[r.Slot(r.rd)]
  }

  function Drop<T>(r: Ring<T>): (s: Ring<T>)
    requires r.Valid()
    ensures s.Valid() && s.width == r.width && s.data == r.data
  {
    r.(rd := r.Next(r.rd))
  }

  // ---------------------------------------------------------------------------------------------------
  // The ring and the queue it stands for
  // ---------------------------------------------------------------------------------------------------

  /** Names a ring; until it is named, the fact below is not unfolded. */
  ghost predicate Name<T>(r: Ring<T>, k: int) {
    true
  }

  /** Of all values ever pushed, the slots hold the last ones, and the indices count pushes and pops. */
  ghost predicate Counts<T>(r: Ring<T>, pushed: seq<T>, pops: nat) {
    forall k {:trigger Name(r, k)} :: Name(r, k) ==>
      && r.Valid() && r.wr == |pushed| % Pow2(r.width) && r.rd == pops % Pow2(r.width)
      && forall i :: 0 <= i < |pushed| && |pushed| <= i + |r.data| ==> r.data[i % |r.data|] == pushed[i]
  }

  /** No more has been popped than pushed, and no more is waiting than there are slots. */
  ghost predicate InStep<T>(r: Ring<T>, pushed: seq<T>, pops: nat) {
    pops <= |pushed| <= pops + |r.data|
  }

  lemma SlotOfCount<T>(r: Ring<T>, count: nat)
    requires r.Valid()
    ensures |r.data| > 0 && r.Slot(count % Pow2(r.width)) == count % |r.data|
  {
    var k: nat :| k < r.width && |r.data| == Pow2(k);
    SlotOf(count, k, r.width);
  }

  lemma NextCount<T>(r: Ring<T>, count: nat)
    requires r.Valid()
    ensures r.Next(count % Pow2(r.width)) == (count + 1) % Pow2(r.width)
  {
    NextIndex(count, Pow2(r.width));
  }

  lemma PushCounts<T>(r: Ring<T>, pushed: seq<T>, pops: nat, val: T)
    requires r.Valid() && Counts(r, pushed, pops)
    ensures Counts(Push(r, val), pushed + [val], pops)
  {
    assert Name(r, 0);
    SlotOfCount(r, |pushed|);
    NextCount(r, |pushed|);
    var n := |r.data|;
    forall i | 0 <= i < |pushed| && |pushed| < i + n ensures i % n != |pushed| % n {
      OtherSlot(i, |pushed|, n);
    }
  }

  lemma DropCounts<T>(r: Ring<T>, pushed: seq<T>, pops: nat)
    requires r.Valid() && Counts(r, pushed, pops)
    ensures Counts(Drop(r), pushed, pops + 1)
  {
    assert Name(r, 0);
    NextCount(r, pops);
  }

  /** A pop gives the value last pushed into that slot. */
  lemma PeekIs<T>(r: Ring<T>, pushed: seq<T>, pops: nat, i: nat)
    requires r.Valid() && Counts(r, pushed, pops)
    requires i < |pushed| <= i + |r.data| && |r.data| > 0 && i % |r.data| == pops % |r.data|
    ensures Peek(r) == pushed[i]
  {
    assert Name(r, 0);
    SlotOfCount(r, pops);
  }

  /** In step, the indices tell exactly how many values wait. */
  lemma InStepIsExact<T>(r: Ring<T>, pushed: seq<T>, pops: nat)
    requires r.Valid() && Counts(r, pushed, pops) && InStep(r, pushed, pops)
    ensures r.Size() == |pushed| - pops
    ensures r.Empty() <==> |pushed| == pops
    ensures r.Full() <==> |pushed| == pops + |r.data|
  {
    assert Name(r, 0);
    SlotInside(r, 0);
    CountsDiffer(|pushed|, pops, Pow2(r.width));
  }

  // ---------------------------------------------------------------------------------------------------
  // Runs
  // ---------------------------------------------------------------------------------------------------

  datatype Op<T> = DoPush(val: T) | DoPop

  function Do<T>(r: Ring<T>, op: Op<T>): (s: Ring<T>)
    requires r.Valid()
    ensures s.Valid() && |s.data| == |r.data|
  {
    match op
    case DoPush(val) => Push(r, val)
    case DoPop => Drop(r)
  }

  /** The caller looks first: no push when `full()` and no pop when `empty()`. */
  predicate Guarded<T>(r: Ring<T>, script: seq<Op<T>>)
    requires r.Valid()
    decreases |script|
  {
    script == [] ||
    (&& (if script[0].DoPush? then !r.Full() else !r.Empty())
     && Guarded(Do(r, script[0]), script[1..]))
  }

  /** The ring reports just what the queue `q` holds, which is no more than it has slots. */
  ghost predicate Reports<T>(r: Ring<T>, q: seq<T>)
    requires r.Valid()
  {
    && |q| <= |r.data|
    && r.Size() == |q| && (r.Empty() <==> q == []) && (r.Full() <==> |q| == |r.data|)
  }

  /** At every moment of the run the ring reports the state of a bounded queue that starts as `q`, and every pop
      gives its oldest value. */
  ghost predicate FollowsQueue<T>(r: Ring<T>, q: seq<T>, script: seq<Op<T>>)
    requires r.Valid()
    decreases |script|
  {
    && Reports(r, q)
    && (script == [] ||
        match script[0]
        case DoPush(val) => FollowsQueue(Push(r, val), q + [val], script[1..])
        case DoPop => q != [] && Peek(r) == q[0] && FollowsQueue(Drop(r), q[1..], script[1..]))
  }

  lemma {:induction false} FollowsExactly<T>(r: Ring<T>, pushed: seq<T>, pops: nat, script: seq<Op<T>>)
    requires r.Valid() && Counts(r, pushed, pops) && InStep(r, pushed, pops)
    ensures FollowsQueue(r, pushed[pops..], script) <==> Guarded(r, script)
    decreases |script|
  {
    var q := pushed[pops..];
    InStepIsExact(r, pushed, pops);
    if script != [] {
      match script[0] {
        case DoPush(val) =>
          assert (pushed + [val])[pops..] == q + [val];
          if !r.Full() {
            PushCounts(r, pushed, pops, val);
            FollowsExactly(Push(r, val), pushed + [val], pops, script[1..]);
          }
        case DoPop =>
          if !r.Empty() {
            assert q[1..] == pushed[pops + 1..];
            SlotInside(r, 0);
            PeekIs(r, pushed, pops, pops);
            DropCounts(r, pushed, pops);
            FollowsExactly(Drop(r), pushed, pops + 1, script[1..]);
          }
      }
    }
  }

  /** A ring just made. */
  ghost predicate IsNew<T>(r: Ring<T>) {
    r.Valid() && r.rd == 0 && r.wr == 0
  }

  /** Main result: the runs that follow a bounded queue, with all that is reported and popped exact at every
      moment, are those that are guarded. */
  lemma RunsFollowExactly<T>(r: Ring<T>, script: seq<Op<T>>)
    requires IsNew(r)
    ensures FollowsQueue(r, [], script) <==> Guarded(r, script)
  {
    NewCounts(r);
    FollowsExactly(r, [], 0, script);
  }

  lemma NewCounts<T>(r: Ring<T>)
    requires IsNew(r)
    ensures Counts(r, [], 0)
  {
    assert 0 % Pow2(r.width) == 0;
  }

  /** A push into a full ring costs the oldest value: the next pop gives the newest instead. */
  lemma OverrunLosesOldest<T>(r: Ring<T>, pushed: seq<T>, pops: nat, val: T)
    requires r.Valid() && Counts(r, pushed, pops) && InStep(r, pushed, pops) && r.Full()
    ensures Peek(Push(r, val)) == val
  {
    InStepIsExact(r, pushed, pops);
    PushCounts(r, pushed, pops, val);
    SlotInside(r, 0);
    SameSlot(pops, |r.data|);
    PeekIs(Push(r, val), pushed + [val], pops, |pushed|);
  }

  lemma SameSlot(x: nat, n: nat)
    requires n > 0
    ensures (x + n) % n == x % n
  {
    AddMultiple(x, n);
  }

  /** A run of a ring of one slot that loses 1 and gives 2 twice; in between it reports a queue of one value again. */
  lemma OverrunExample()
    ensures IsNew(Ring([0], 0, 0, 8))
    ensures var full := Push(Ring([0], 0, 0, 8), 1);
            var over := Push(full, 2);
            var next := Drop(over);
            && full.Full() && over.Size() == 2 && !over.Full() && Peek(over) == 2
            && next.Size() == 1 && next.Full() && !next.Empty() && Peek(next) == 2
  {
    var r := Ring([0], 0, 0, 8);
    assert Pow2(8) == 256 && Pow2(0) == 1;
    assert r.Valid();
    SlotInside(r, 0);
    SlotInside(Push(r, 1), 1);
    var over := Push(Push(r, 1), 2);
    SlotInside(over, 0);
    SlotInside(Drop(over), 1);
  }
}
