/**
 Whole runs of a chain of buffers: any mixture of bytes put in, buffers added and reads. What every run keeps,
 when every read gets all it asks for, and exactly when bytes are lost for good.
 */
module BufferRuns {
  import opened Bytes
  import opened BufferModel

  datatype Op = Put(c: Byte) | Grow(size: nat) | Get(len: int)

  /** A chain, with all bytes it ever accepted and all it ever gave back. */
  datatype Ledger = Ledger(chain: seq<View>, accepted: seq<Byte>, delivered: seq<Byte>)

  const EMPTY := Ledger([], [], [])

  predicate HasRoom(chain: seq<View>) {
    chain != [] && !chain[|chain| - 1].Full()
  }

  lemma WithByteIsValid(chain: seq<View>, c: Byte)
    requires AllValid(chain) && HasRoom(chain)
    ensures AllValid(WithByte(chain, c))
  {
    var n := |chain| - 1;
    forall i | 0 <= i < |chain| ensures WithByte(chain, c)[i].Valid() {
      assert chain[i].Valid();
    }
  }

  function Do(s: Ledger, op: Op): (t: Ledger)
    requires AllValid(s.chain)
    ensures AllValid(t.chain)
  {
    match op
    case Put(c) =>
      if !HasRoom(s.chain) then s
      else
        WithByteIsValid(s.chain, c);
        Ledger(WithByte(s.chain, c), s.accepted + [c], s.delivered)
    case Grow(size) => s.(chain := s.chain + [View(size, [], 0)])
    case Get(len) =>
      var r := Taken(s.chain, len);
      Ledger(r.0, s.accepted, s.delivered + r.1)
  }

  function Run(s: Ledger, script: seq<Op>): (t: Ledger)
    requires AllValid(s.chain)
    ensures AllValid(t.chain)
    decreases |script|
  {
    if script == [] then s else Run(Do(s, script[0]), script[1..])
  }

  lemma {:induction false} RunNext(s: Ledger, script: seq<Op>, op: Op)
    requires AllValid(s.chain)
    ensures Run(s, script + [op]) == Do(Run(s, script), op)
    decreases |script|
  {
    if script == [] {
      assert script + [op] == [op];
      assert Run(s, [op]) == Run(Do(s, op), [op][1..]);
    } else {
      assert (script + [op])[1..] == script[1..] + [op];
      RunNext(Do(s, script[0]), script[1..], op);
    }
  }

  /** Names a script; until it is named, the fact below is not unfolded. */
  ghost predicate NameScript(script: seq<Op>, k: int) {
    true
  }

  ghost predicate IsRun(script: seq<Op>, s: Ledger) {
    forall k {:trigger NameScript(script, k)} :: NameScript(script, k) ==> Run(EMPTY, script) == s
  }

  lemma RunGoesOn(script: seq<Op>, s: Ledger, op: Op)
    requires IsRun(script, s) && AllValid(s.chain)
    ensures IsRun(script + [op], Do(s, op))
  {
    assert NameScript(script, 0);
    RunNext(EMPTY, script, op);
  }

  lemma DoneGet(script: seq<Op>, s: Ledger, len: int, t: Ledger)
    requires IsRun(script, s) && AllValid(s.chain) && t.accepted == s.accepted
    requires var r := Taken(s.chain, len); t.chain == r.0 && t.delivered == s.delivered + r.1
    ensures t == Do(s, Get(len)) && IsRun(script + [Get(len)], t) && AllValid(t.chain)
    ensures |Taken(s.chain, len).1| == Obtained(Ready(s.chain), len)
  {
    RunGoesOn(script, s, Get(len));
    TakenInOrder(s.chain, len);
  }

  // ---------------------------------------------------------------------------------------------------
  // First in, first out
  // ---------------------------------------------------------------------------------------------------

  ghost predicate Balanced(s: Ledger) {
    AllValid(s.chain) && s.accepted == s.delivered + Pending(s.chain)
  }

  lemma PutBalances(s: Ledger, c: Byte)
    requires Balanced(s) && HasRoom(s.chain)
    ensures Balanced(Do(s, Put(c)))
  {
    var front, v := s.chain[..|s.chain| - 1], s.chain[|s.chain| - 1];
    assert s.chain == front + [v];
    assert WithByte(s.chain, c) == front + [v.(taken := v.taken + [c])];
    ByteInLast(front, v, c);
  }

  lemma GrowBalances(s: Ledger, size: nat)
    requires Balanced(s)
    ensures Balanced(Do(s, Grow(size)))
  {
    PendingJoins(s.chain, [View(size, [], 0)]);
    PendingOfOne(View(size, [], 0));
  }

  lemma GetBalances(s: Ledger, len: int)
    requires Balanced(s)
    ensures Balanced(Do(s, Get(len)))
  {
    TakenInOrder(s.chain, len);
    var r := Taken(s.chain, len);
    assert s.delivered + (r.1 + Pending(r.0)) == (s.delivered + r.1) + Pending(r.0);
  }

  lemma {:induction false} RunBalances(s: Ledger, script: seq<Op>)
    requires Balanced(s)
    ensures Balanced(Run(s, script))
    decreases |script|
  {
    if script != [] {
      match script[0] {
        case Put(c) => if HasRoom(s.chain) { PutBalances(s, c); }
        case Grow(size) => GrowBalances(s, size);
        case Get(len) => GetBalances(s, len);
      }
      RunBalances(Do(s, script[0]), script[1..]);
    }
  }

  /** How many more bytes a run leaves room for, from what was asked alone: a new buffer brings its size, every byte
      that fits takes one place, and reads give none back. */
  function Room(script: seq<Op>): nat {
    if script == [] then 0
    else
      var room := Room(script[..|script| - 1]);
      match script[|script| - 1]
      case Grow(size) => size
      case Put(_) => if room > 0 then room - 1 else 0
      case Get(_) => room
  }

  /** The bytes of just those puts that find room, in order. */
  function Fitting(script: seq<Op>): seq<Byte> {
    if script == [] then []
    else
      var front, last := script[..|script| - 1], script[|script| - 1];
      Fitting(front) + (if last.Put? && Room(front) > 0 then [last.c] else [])
  }

  /** The places left in the last buffer. */
  function Places(chain: seq<View>): nat
    requires AllValid(chain)
  {
    if chain == [] then 0 else
      assert chain[|chain| - 1].Valid();
      chain[|chain| - 1].size - |chain[|chain| - 1].taken|
  }

  lemma {:induction false} TakenKeepsPlaces(chain: seq<View>, len: int)
    requires AllValid(chain)
    ensures Places(Taken(chain, len).0) == Places(chain)
    decreases Ready(chain)
  {
    if !(len == 0 || chain == [] || chain[0].Held() == []) {
      var v, rest := chain[0], chain[1..];
      var n := Share(v, len);
      assert chain == [v] + rest;
      HeadRead(v, rest, n);
      HeadKeepsPlaces(v, rest, n);
      TakenKeepsPlaces(AfterHead(v, rest, n), len - n);
    }
  }

  lemma HeadKeepsPlaces(v: View, rest: seq<View>, n: nat)
    requires v.Valid() && AllValid(rest) && n <= |v.Held()|
    ensures AllValid([v] + rest) && AllValid(AfterHead(v, rest, n))
    ensures Places(AfterHead(v, rest, n)) == Places([v] + rest)
  {
    var w, chain := v.(out := v.out + n), [v] + rest;
    if rest == [] {
      assert chain[|chain| - 1] == v;
      assert w.out == w.size ==> |v.taken| == v.size;
    } else {
      assert chain[|chain| - 1] == rest[|rest| - 1];
      if w.out != w.size {
        assert ([w] + rest)[|rest|] == rest[|rest| - 1];
      }
    }
  }

  lemma DoKeepsPlaces(s: Ledger, op: Op)
    requires AllValid(s.chain)
    ensures Places(Do(s, op).chain) == match op
              case Grow(size) => size
              case Put(_) => if Places(s.chain) > 0 then Places(s.chain) - 1 else 0
              case Get(_) => Places(s.chain)
    ensures HasRoom(s.chain) <==> Places(s.chain) > 0
  {
    if s.chain != [] {
      assert s.chain[|s.chain| - 1].Valid();
    }
    if op.Get? {
      TakenKeepsPlaces(s.chain, op.len);
    }
  }

  /** What a run accepts, and whether it has room, is told by the script alone. */
  lemma {:induction false} AcceptedIsFitting(script: seq<Op>)
    ensures var t := Run(EMPTY, script);
            && t.accepted == Fitting(script) && Places(t.chain) == Room(script)
            && (HasRoom(t.chain) <==> Room(script) > 0)
    decreases |script|
  {
    if script != [] {
      var front, last := script[..|script| - 1], script[|script| - 1];
      assert script == front + [last];
      AcceptedIsFitting(front);
      RunNext(EMPTY, front, last);
      DoKeepsPlaces(Run(EMPTY, front), last);
    }
    DoKeepsPlaces(Run(EMPTY, script), Get(0));
  }

  /** Main result: in every run the bytes read so far and then the bytes pending are those of the puts that find
      room, whatever their values, in order. */
  lemma EveryRunIsInOrder(script: seq<Op>)
    ensures var t := Run(EMPTY, script);
            t.delivered + Pending(t.chain) == t.accepted == Fitting(script) && t.delivered <= Fitting(script)
  {
    RunBalances(EMPTY, script);
    AcceptedIsFitting(script);
  }

  lemma RoomOfRun(script: seq<Op>, s: Ledger)
    requires IsRun(script, s) && AllValid(s.chain)
    ensures HasRoom(s.chain) == (Room(script) > 0)
  {
    assert NameScript(script, 0);
    AcceptedIsFitting(script);
  }

  lemma OrderOfRun(script: seq<Op>, s: Ledger)
    requires IsRun(script, s) && AllValid(s.chain)
    ensures s.delivered + Pending(s.chain) == Fitting(script)
  {
    assert NameScript(script, 0);
    EveryRunIsInOrder(script);
  }

  // ---------------------------------------------------------------------------------------------------
  // Dams
  // ---------------------------------------------------------------------------------------------------

  /** Reading does not get past this buffer while it is as it is. */
  predicate Blocks(v: View)
    requires v.Valid()
  {
    v.Held() == [] || !v.Full()
  }

  /** Such a buffer, with others behind it: it will never take another byte. */
  ghost predicate Dammed(chain: seq<View>)
    requires AllValid(chain)
  {
    exists i :: 0 <= i < |chain| - 1 && Blocks(chain[i])
  }

  lemma DamInRest(v: View, rest: seq<View>)
    requires v.Valid() && AllValid(rest) && rest != []
    ensures AllValid([v] + rest) && (Dammed([v] + rest) <==> Blocks(v) || Dammed(rest))
  {
    var chain := [v] + rest;
    if Blocks(v) {
      assert Blocks(chain[0]);
    }
    if Dammed(rest) {
      var i :| 0 <= i < |rest| - 1 && Blocks(rest[i]);
      assert Blocks(chain[i + 1]);
    }
    if Dammed(chain) {
      var i :| 0 <= i < |chain| - 1 && Blocks(chain[i]);
      assert i > 0 ==> rest[i - 1] == chain[i];
    }
  }

  /** What comes after a buffer that blocks cannot be read. */
  lemma {:induction false} ReadyBeforeDam(front: seq<View>, a: seq<View>, b: seq<View>, i: nat)
    requires AllValid(front + a) && AllValid(front + b) && AllValid(front) && i < |front| && Blocks(front[i])
    ensures Ready(front + a) == Ready(front + b)
    decreases |front|
  {
    assert (front + a)[1..] == front[1..] + a && (front + b)[1..] == front[1..] + b;
    if !Blocks(front[0]) {
      ReadyBeforeDam(front[1..], a, b, i - 1);
    }
  }

  /** A read neither makes a dam nor removes one. */
  lemma {:induction false} TakenKeepsDam(chain: seq<View>, len: int)
    requires AllValid(chain)
    ensures Dammed(Taken(chain, len).0) <==> Dammed(chain)
    decreases Ready(chain)
  {
    if !(len == 0 || chain == [] || chain[0].Held() == []) {
      var v, rest := chain[0], chain[1..];
      var n := Share(v, len);
      assert chain == [v] + rest;
      HeadRead(v, rest, n);
      HeadKeepsDam(v, rest, n);
      TakenKeepsDam(AfterHead(v, rest, n), len - n);
    }
  }

  lemma HeadKeepsDam(v: View, rest: seq<View>, n: nat)
    requires v.Valid() && AllValid(rest) && 0 < n <= |v.Held()|
    ensures AllValid([v] + rest) && AllValid(AfterHead(v, rest, n))
    ensures Dammed(AfterHead(v, rest, n)) <==> Dammed([v] + rest)
  {
    HeadRead(v, rest, n);
    var w := v.(out := v.out + n);
    if rest != [] {
      DamInRest(v, rest);
      if w.out != w.size {
        DamInRest(w, rest);
      }
    }
  }

  /** When a new buffer dams the chain: it leaves behind one that was not full, or has no size. */
  predicate Careful(s: Ledger, op: Op)
    requires AllValid(s.chain)
  {
    op.Grow? && s.chain != [] ==> !Blocks(s.chain[|s.chain| - 1])
  }

  lemma StepAndDam(s: Ledger, op: Op)
    requires AllValid(s.chain)
    ensures Dammed(Do(s, op).chain) <==> Dammed(s.chain) || !Careful(s, op)
  {
    var t := Do(s, op);
    match op {
      case Put(c) =>
        assert forall i :: 0 <= i < |s.chain| - 1 ==> t.chain[i] == s.chain[i];
      case Grow(size) =>
        assert forall i :: 0 <= i < |s.chain| ==> t.chain[i] == s.chain[i];
        assert s.chain != [] ==> t.chain[|t.chain| - 2] == s.chain[|s.chain| - 1];
      case Get(len) => TakenKeepsDam(s.chain, len);
    }
  }

  /** Behind a dam the number of bytes that will ever be read does not change. */
  lemma DamLimits(s: Ledger, op: Op)
    requires AllValid(s.chain) && Dammed(s.chain)
    ensures Dammed(Do(s, op).chain)
    ensures var t := Do(s, op); |t.delivered| + Ready(t.chain) == |s.delivered| + Ready(s.chain)
  {
    StepAndDam(s, op);
    var i :| 0 <= i < |s.chain| - 1 && Blocks(s.chain[i]);
    match op {
      case Put(c) =>
        var front, v := s.chain[..|s.chain| - 1], s.chain[|s.chain| - 1];
        assert s.chain == front + [v];
        if HasRoom(s.chain) {
          assert WithByte(s.chain, c) == front + [v.(taken := v.taken + [c])];
          ReadyBeforeDam(front, [v], [v.(taken := v.taken + [c])], i);
        }
      case Grow(size) =>
        assert s.chain == s.chain + [];
        ReadyBeforeDam(s.chain, [], [View(size, [], 0)], i);
      case Get(len) => TakenInOrder(s.chain, len);
    }
  }

  /** Main result: once dammed, a chain stays so in every run, and gives back what was ready and not a byte more. */
  lemma {:induction false} DammedForGood(s: Ledger, script: seq<Op>)
    requires AllValid(s.chain) && Dammed(s.chain)
    ensures var t := Run(s, script);
            Dammed(t.chain) && |t.delivered| + Ready(t.chain) == |s.delivered| + Ready(s.chain)
    decreases |script|
  {
    if script != [] {
      DamLimits(s, script[0]);
      DammedForGood(Do(s, script[0]), script[1..]);
    }
  }

  lemma {:induction false} DeliveredStays(s: Ledger, script: seq<Op>)
    requires AllValid(s.chain)
    ensures s.delivered <= Run(s, script).delivered
    decreases |script|
  {
    if script != [] {
      DeliveredStays(Do(s, script[0]), script[1..]);
    }
  }

  /** When the first buffer of a dammed chain is dry, nothing is read ever again. */
  lemma DryForGood(s: Ledger, script: seq<Op>)
    requires AllValid(s.chain) && |s.chain| >= 2 && s.chain[0].Held() == []
    ensures Run(s, script).delivered == s.delivered
  {
    assert Blocks(s.chain[0]);
    DammedForGood(s, script);
    DeliveredStays(s, script);
  }

  predicate AlwaysCareful(s: Ledger, script: seq<Op>)
    requires AllValid(s.chain)
    decreases |script|
  {
    script == [] || (Careful(s, script[0]) && AlwaysCareful(Do(s, script[0]), script[1..]))
  }

  /** Exactly the runs that add a buffer behind one that is not full, or has no size, end with a dam. */
  lemma {:induction false} DammedExactly(s: Ledger, script: seq<Op>)
    requires AllValid(s.chain)
    ensures Dammed(Run(s, script).chain) <==> Dammed(s.chain) || !AlwaysCareful(s, script)
    decreases |script|
  {
    if script != [] {
      StepAndDam(s, script[0]);
      DammedExactly(Do(s, script[0]), script[1..]);
    }
  }

  /** Main result: all that was accepted can still be read, by some run, exactly when nothing is stuck. */
  lemma RecoverableExactly(s: Ledger)
    requires Balanced(s)
    ensures (exists script :: |Run(s, script).delivered| >= |s.accepted|) <==> NothingStuck(s.chain)
  {
    ReadyIsAllExactly(s.chain);
    if NothingStuck(s.chain) {
      var n := |Pending(s.chain)|;
      TakenInOrder(s.chain, n);
      assert Run(s, [] + [Get(n)]) == Do(s, Get(n)) by { RunNext(s, [], Get(n)); }
      assert |Run(s, [] + [Get(n)]).delivered| >= |s.accepted|;
    } else {
      forall script ensures |Run(s, script).delivered| < |s.accepted| {
        DammedForGood(s, script);
      }
    }
  }

  /** No buffer that has some size has been read to the end of its space. */
  ghost predicate SizedUnspent(chain: seq<View>) {
    forall v <- chain :: v.size > 0 ==> v.out < v.size
  }

  lemma {:induction false} TakenKeepsSized(chain: seq<View>, len: int)
    requires AllValid(chain) && SizedUnspent(chain)
    ensures SizedUnspent(Taken(chain, len).0)
    decreases Ready(chain)
  {
    if !(len == 0 || chain == [] || chain[0].Held() == []) {
      var v, rest := chain[0], chain[1..];
      var n := Share(v, len);
      assert chain == [v] + rest;
      HeadRead(v, rest, n);
      TakenKeepsSized(AfterHead(v, rest, n), len - n);
    }
  }

  lemma {:induction false} RunKeepsSized(s: Ledger, script: seq<Op>)
    requires AllValid(s.chain) && SizedUnspent(s.chain)
    ensures SizedUnspent(Run(s, script).chain)
    decreases |script|
  {
    if script != [] {
      if script[0].Get? {
        TakenKeepsSized(s.chain, script[0].len);
      }
      RunKeepsSized(Do(s, script[0]), script[1..]);
    }
  }

  /** So in every run the buffers that block are those that are not full, and those of no size. */
  lemma BlocksExactly(script: seq<Op>, v: View)
    requires v in Run(EMPTY, script).chain
    ensures v.Valid() && (Blocks(v) <==> !v.Full() || v.size == 0)
  {
    RunKeepsSized(EMPTY, script);
  }

  /** A run that strands a byte: the second buffer comes before the first is full. */
  lemma AddedTooSoon()
    ensures var t := Run(EMPTY, [Grow(2), Put(1), Grow(2), Put(2), Get(2)]);
            && t.accepted == [1, 2] && t.delivered == [1] && Pending(t.chain) == [2]
            && forall script :: Run(t, script).delivered == [1]
  {
    var s1 := Do(EMPTY, Grow(2));
    assert s1.chain == [View(2, [], 0)];
    var s2 := Do(s1, Put(1));
    assert [] + [1 as Byte] == [1];
    assert s2.chain == [View(2, [1], 0)];
    var s3 := Do(s2, Grow(2));
    assert s3.chain == [View(2, [1], 0), View(2, [], 0)];
    var s4 := Do(s3, Put(2));
    assert [] + [2 as Byte] == [2];
    assert s4.chain == [View(2, [1], 0), View(2, [2], 0)];
    var t := Do(s4, Get(2));
    OneOfTwo(s4.chain);
    forall script ensures Run(t, script).delivered == [1] {
      DryForGood(t, script);
    }
    RunFive(EMPTY, Grow(2), Put(1), Grow(2), Put(2), Get(2));
  }

  lemma OneOfTwo(chain: seq<View>)
    requires chain == [View(2, [1], 0), View(2, [2], 0)]
    ensures Taken(chain, 2) == ([View(2, [1], 1), View(2, [2], 0)], [1])
    ensures Pending([View(2, [1], 1), View(2, [2], 0)]) == [2]
  {
    var left := [View(2, [1], 1), View(2, [2], 0)];
    assert chain[1..] == [View(2, [2], 0)] && left[1..] == [View(2, [2], 0)];
    assert AfterHead(chain[0], chain[1..], 1) == left;
    assert Taken(left, 1) == (left, []);
    assert chain[0].Held() == [1] && [1 as Byte][..1] + [] == [1];
    assert Pending(left) == [] + Pending([View(2, [2], 0)]);
    PendingOfOne(View(2, [2], 0));
  }

  lemma RunFive(s: Ledger, a: Op, b: Op, c: Op, d: Op, e: Op)
    requires AllValid(s.chain)
    ensures Run(s, [a, b, c, d, e]) == Do(Do(Do(Do(Do(s, a), b), c), d), e)
  {
    assert [a, b, c, d, e][1..] == [b, c, d, e] && [b, c, d, e][1..] == [c, d, e];
    assert [c, d, e][1..] == [d, e] && [d, e][1..] == [e] && [e][1..] == [];
    var s2 := Do(Do(s, a), b);
    assert Run(s, [a, b, c, d, e]) == Run(Do(s, a), [b, c, d, e]) == Run(s2, [c, d, e]);
    assert Run(s2, [c, d, e]) == Run(Do(s2, c), [d, e]) == Run(Do(Do(s2, c), d), [e]);
    assert Run(Do(Do(s2, c), d), [e]) == Run(Do(Do(Do(s2, c), d), e), []);
  }

  // ---------------------------------------------------------------------------------------------------
  // Buffers added only when full
  // ---------------------------------------------------------------------------------------------------

  /** Each new buffer has some size and comes when there is no room. */
  predicate InTurn(s: Ledger, script: seq<Op>)
    requires AllValid(s.chain)
    decreases |script|
  {
    script == [] ||
    (&& (script[0].Grow? ==> script[0].size > 0 && !HasRoom(s.chain))
     && InTurn(Do(s, script[0]), script[1..]))
  }

  /** Every read of the run gets the oldest pending bytes, all of them or as many as it asks for. */
  ghost predicate ServedInFull(s: Ledger, script: seq<Op>)
    requires AllValid(s.chain)
    decreases |script|
  {
    script == [] ||
    (&& (script[0].Get? ==>
          var pending := Pending(s.chain);
          Do(s, script[0]).delivered == s.delivered + pending[..Obtained(|pending|, script[0].len)])
     && ServedInFull(Do(s, script[0]), script[1..]))
  }

  /** No buffer has been read to the end of its space. */
  ghost predicate Unspent(chain: seq<View>) {
    forall v <- chain :: v.out < v.size
  }

  lemma {:induction false} TakenKeepsUnspent(chain: seq<View>, len: int)
    requires AllValid(chain) && Unspent(chain)
    ensures Unspent(Taken(chain, len).0)
    decreases Ready(chain)
  {
    if !(len == 0 || chain == [] || chain[0].Held() == []) {
      var v, rest := chain[0], chain[1..];
      var n := Share(v, len);
      assert chain == [v] + rest;
      HeadRead(v, rest, n);
      TakenKeepsUnspent(AfterHead(v, rest, n), len - n);
    }
  }

  lemma GetServes(s: Ledger, len: int)
    requires AllValid(s.chain) && !Dammed(s.chain)
    ensures var pending := Pending(s.chain);
            Do(s, Get(len)).delivered == s.delivered + pending[..Obtained(|pending|, len)]
  {
    ReadyIsAllExactly(s.chain);
    TakenInOrder(s.chain, len);
  }

  /** Runs that add buffers carefully serve every read in full. */
  lemma {:induction false} CarefulIsServed(s: Ledger, script: seq<Op>)
    requires AllValid(s.chain) && !Dammed(s.chain) && AlwaysCareful(s, script)
    ensures ServedInFull(s, script)
    decreases |script|
  {
    if script != [] {
      if script[0].Get? {
        GetServes(s, script[0].len);
      }
      StepAndDam(s, script[0]);
      CarefulIsServed(Do(s, script[0]), script[1..]);
    }
  }

  lemma {:induction false} InTurnIsCareful(s: Ledger, script: seq<Op>)
    requires AllValid(s.chain) && Unspent(s.chain) && InTurn(s, script)
    ensures AlwaysCareful(s, script)
    decreases |script|
  {
    if script != [] {
      if script[0].Get? {
        TakenKeepsUnspent(s.chain, script[0].len);
      }
      InTurnIsCareful(Do(s, script[0]), script[1..]);
    }
  }

  /** Main result: when a buffer of some size is added only when the chain is full, every read of the run gets
      exactly as many bytes as it asks for, or all that are pending. */
  lemma FilledInTurnIsServed(script: seq<Op>)
    requires InTurn(EMPTY, script)
    ensures ServedInFull(EMPTY, script)
  {
    InTurnIsCareful(EMPTY, script);
    CarefulIsServed(EMPTY, script);
  }
}
