/**
 When the ring loses a message: as long as the producer never had to step over the slot in use, no
 search has overtaken, and no empty buffer was committed, only a full ring drops one.
 */
module RingCapacity {
  import opened Bytes
  import opened Ring
  import opened RingRuns

  /** Slot `i` holds a message, committed or about to be: the one being filled does not yet. */
  ghost predicate Holds(s: Sys, i: int) {
    0 <= i < s.ring.End() && s.ring.slots[i] != [] && !(s.prod.Filling? && i == s.prod.slot)
  }

  /** Going round from `ip`, the first `k` slots are free and all the others hold messages, the oldest first. */
  ghost predicate Packed(s: Sys, k: nat) {
    && k <= s.ring.End()
    && (forall i: int :: 0 <= i < s.ring.End() ==> (Holds(s, i) <==> Offset(s.ring.ip, i, s.ring.End()) >= k))
    && (s.cons.Using? ==> Offset(s.ring.ip, s.cons.slot, s.ring.End()) == k)
  }

  /** A step that keeps the ring packed. */
  predicate Tidy(s: Sys, op: Op) {
    match op
    case Choose => s.ring.ip != s.ring.iusing
    case Advance => s.prod.Filling? && s.prod.slot < s.ring.End() && s.ring.slots[s.prod.slot] != []
    case Test => !s.Overtakes(op)
    case FailAlloc => false
    case FailUse => false
    case _ => true
  }

  lemma {:induction false} ProducerPacks(s: Sys, op: Op, k: nat) returns (j: nat)
    requires s.Tracks() && s.Enabled(op) && Packed(s, k) && Tidy(s, op)
    requires op.Choose? || op.Claim? || op.Put? || op.Release?
    ensures Packed(s.Next(op), j)
  {
    hide Ring.Waiting, Ring.Passed, Fifo.Placed, Fifo.Messages;
    j := if op.Claim? && k == 0 then 1 else k;
    var t, n := s.Next(op), s.ring.End();
    assert forall i: int :: 0 <= i < n && i != s.ring.ip ==> Offset(s.ring.ip, i, n) >= 1;
    forall i: int | 0 <= i < n ensures Holds(t, i) <==> Offset(t.ring.ip, i, n) >= j {
      assert Holds(s, i) <==> Offset(s.ring.ip, i, n) >= k;
    }
  }

  lemma {:induction false} AdvancePacks(s: Sys, k: nat) returns (j: nat)
    requires s.Tracks() && s.prod.Filling? && Packed(s, k) && Tidy(s, Advance)
    ensures Packed(s.Next(Advance), j)
  {
    hide Ring.Waiting, Ring.Passed, Fifo.Placed, Fifo.Messages;
    var t, n, a := s.Next(Advance), s.ring.End(), s.prod.slot;
    assert !Holds(s, a) && Offset(s.ring.ip, a, n) == 0;
    j := k - 1;
    forall i: int | 0 <= i < n ensures Holds(t, i) <==> Offset(t.ring.ip, i, n) >= j {
      assert Holds(s, i) <==> Offset(s.ring.ip, i, n) >= k;
      assert i != a ==> Offset(t.ring.ip, i, n) == Offset(s.ring.ip, i, n) - 1;
      assert i == a ==> Offset(t.ring.ip, i, n) == n - 1;
    }
  }

  /** What a search finds, if it does not overtake, is the first message behind the free slots. */
  lemma {:induction false} FoundFirst(s: Sys, k: nat)
    requires s.Tracks() && s.cons.Testing? && s.ring.Usable(s.cons.p) && !s.Overtakes(Test) && Packed(s, k)
    ensures Offset(s.ring.ip, s.cons.p, s.ring.End()) == k
  {
    hide Ring.Scan, Fifo.Placed, Fifo.Messages;
    var r, p, n := s.ring, s.cons.p, s.ring.End();
    assert Holds(s, p);
    var d := Offset(r.ip, p, n);
    if d > k {
      var i := if r.ip + k < n then r.ip + k else r.ip + k - n;
      assert Offset(r.ip, i, n) == k;
      assert Holds(s, i);
      if s.Stale() {
        FoundNewest(r, p);
        NoneWaits(r.(iusing := p), r.ip, n, i);
      }
    }
  }

  /** A scan that shows nothing passes no waiting message. */
  lemma {:induction false} NoneWaits(r: Ring, p: nat, k: nat, i: nat)
    requires r.Valid() && p < r.End() && k <= r.End() && i < r.End() && Offset(p, i, r.End()) < k
    requires r.Scan(p, k) == []
    ensures r.Cell(i) == []
    decreases k
  {
    hide Ring.Scan, Ring.Cell;
    ScanStep(r, p, k);
    if i != p {
      NoneWaits(r, r.Incr(p), k - 1, i);
    }
  }

  lemma {:induction false} TestPacks(s: Sys, k: nat)
    requires s.Tracks() && s.Enabled(Test) && Packed(s, k) && Tidy(s, Test)
    ensures Packed(s.Next(Test), k)
  {
    hide Ring.Waiting, Ring.Passed, Fifo.Placed, Fifo.Messages, Sys.Search;
    if s.ring.Usable(s.cons.p) {
      FoundFirst(s, k);
    }
    SameContent(s, s.Next(Test), k);
  }

  /** As long as neither the slots nor the producer change. */
  lemma {:induction false} SameContent(s: Sys, t: Sys, k: nat)
    requires Packed(s, k) && t.prod == s.prod && t.ring.slots == s.ring.slots && t.ring.ip == s.ring.ip
    ensures forall i: int :: 0 <= i < t.ring.End() ==> (Holds(t, i) <==> Offset(t.ring.ip, i, t.ring.End()) >= k)
  {
    forall i: int | 0 <= i < t.ring.End() ensures Holds(t, i) <==> Offset(t.ring.ip, i, t.ring.End()) >= k {
      assert Holds(s, i) <==> Offset(s.ring.ip, i, s.ring.End()) >= k;
    }
  }

  lemma {:induction false} ClearPacks(s: Sys, k: nat)
    requires s.Tracks() && s.Enabled(Clear) && Packed(s, k)
    ensures Packed(s.Next(Clear), k + 1)
  {
    hide Ring.Waiting, Ring.Passed, Fifo.Placed, Fifo.Messages, Sys.Search;
    var t, n := s.Next(Clear), s.ring.End();
    forall i: int | 0 <= i < n ensures Holds(t, i) <==> Offset(t.ring.ip, i, n) >= k + 1 {
      assert Holds(s, i) <==> Offset(s.ring.ip, i, n) >= k;
      assert Offset(s.ring.ip, i, n) == k <==> i == s.cons.slot;
    }
  }

  lemma {:induction false} OthersPack(s: Sys, op: Op, k: nat)
    requires s.Tracks() && s.Enabled(op) && Packed(s, k) && (op.Read? || op.ReadAgain? || op.Drop?)
    ensures Packed(s.Next(op), k)
  {
    hide Ring.Waiting, Ring.Passed, Fifo.Placed, Fifo.Messages, Sys.Search;
    SameContent(s, s.Next(op), k);
  }

  // ----- runs -----

  /** No step of the run is untidy: no stepping over, no overtaking, no empty commit, no `fail`. */
  ghost predicate TidyRun(s: Sys, ops: seq<Op>)
    decreases |ops|
  {
    ops != [] && s.Safe() && s.Enabled(ops[0]) ==> Tidy(s, ops[0]) && TidyRun(s.Next(ops[0]), ops[1..])
  }

  lemma {:induction false} StaysPacked(s: Sys, k: nat, ops: seq<Op>, t: Sys) returns (j: nat)
    requires s.Tracks() && Packed(s, k) && Runs(s, ops, t) && TidyRun(s, ops)
    ensures t.Tracks() && Packed(t, j)
    decreases |ops|
  {
    hide Sys.Tracks, Sys.Next, Sys.Safe, Packed, Sys.Enabled;
    j := k;
    if ops != [] {
      RefinesStep(s, ops[0]);
      match ops[0] {
        case Choose | Claim | Put(_) | Release => j := ProducerPacks(s, ops[0], k);
        case Advance => j := AdvancePacks(s, k);
        case Test => TestPacks(s, k);
        case Clear => ClearPacks(s, k); j := k + 1;
        case Read(_) | ReadAgain | Drop => OthersPack(s, ops[0], k);
        case FailAlloc | FailUse => assert false;
      }
      j := StaysPacked(s.Next(ops[0]), j, ops[1..], t);
    }
  }

  // ----- counting what waits -----

  lemma {:induction false} ScanAtMost(r: Ring, p: nat, k: nat)
    requires r.Valid() && p < r.End() && k <= r.End()
    ensures |r.Scan(p, k)| <= k - if r.iusing < r.End() && Offset(p, r.iusing, r.End()) < k then 1 else 0
    decreases k
  {
    ScanStep(r, p, k);
    hide Ring.Scan;
    if k > 0 {
      ScanAtMost(r, r.Incr(p), k - 1);
    }
  }

  lemma {:induction false} ScanAll(r: Ring, p: nat, k: nat)
    requires r.Valid() && p < r.End() && k <= r.End()
    requires forall i :: 0 <= i < r.End() && i != r.iusing ==> r.Queued(i)
    ensures |r.Scan(p, k)| == k - if r.iusing < r.End() && Offset(p, r.iusing, r.End()) < k then 1 else 0
    decreases k
  {
    ScanStep(r, p, k);
    hide Ring.Scan;
    if k > 0 {
      ScanAll(r, r.Incr(p), k - 1);
    }
  }

  /** How many messages there are, and whether the slot to be claimed shows one. */
  lemma {:induction false} ClaimedWhenFull(s: Sys, k: nat)
    requires s.Tracks() && s.prod.Choosing? && Packed(s, k)
    ensures s.ring.Queued(s.ring.ip) <==> |s.fifo.waiting| + |s.fifo.held| == s.ring.End()
  {
    hide Fifo.Messages, Ring.Scan;
    var r, n := s.ring, s.ring.End();
    WaitingCount(s);
    if r.Queued(r.ip) {
      assert Holds(s, r.ip) && k == 0;
      forall i | 0 <= i < n && i != r.iusing ensures r.Queued(i) {
        assert Holds(s, i);
      }
      assert r.iusing < n ==> Holds(s, r.iusing);
      ScanAll(r, r.ip, n);
    } else {
      ScanStep(r, r.ip, n);
      ScanAtMost(r, r.Incr(r.ip), n - 1);
      assert r.Cell(r.ip) == [];
    }
  }

  /**
   The capacity law, over every run from an empty ring in which the producer never steps over the
   slot in use: a claim drops a message if and only if all slots are waiting or in use.
   */
  lemma {:induction false} DropsExactlyWhenFull(n: nat, ops: seq<Op>, t: Sys)
    requires n >= 2 && Runs(Init(n), ops, t) && TidyRun(Init(n), ops) && t.prod.Choosing?
    ensures t.Tracks()
    ensures t.Next(Claim).fifo.dropped != t.fifo.dropped <==> |t.fifo.waiting| + |t.fifo.held| == n
  {
    hide Sys.Tracks, Packed, Runs, TidyRun, Init, Sys.Next;
    InitTracks(n);
    InitPacked(n);
    var k := StaysPacked(Init(n), n, ops, t);
    RunKeepsSize(Init(n), ops, t);
    ClaimedWhenFull(t, k);
    ClaimDrops(t);
  }

  lemma {:induction false} InitPacked(n: nat)
    requires n >= 2
    ensures Packed(Init(n), n) && Init(n).ring.End() == n
  {
  }

  lemma {:induction false} ClaimDrops(s: Sys)
    requires s.Tracks() && s.prod.Choosing?
    ensures s.Next(Claim).fifo.dropped != s.fifo.dropped <==> s.ring.Queued(s.ring.ip)
  {
    hide Ring.Scan;
    if s.ring.Queued(s.ring.ip) {
      ClaimDropsOldest(s.ring);
      FirstOf(s.fifo, s.ring.slots[s.ring.ip], s.ring.Claim().Waiting());
      assert s.Next(Claim).fifo == s.fifo.DropOldest();
      assert |s.fifo.DropOldest().dropped| == |s.fifo.dropped| + 1;
    }
  }

  lemma {:induction false} RunKeepsSize(s: Sys, ops: seq<Op>, t: Sys)
    requires Runs(s, ops, t)
    ensures t.ring.End() == s.ring.End()
    decreases |ops|
  {
    hide Sys.Safe, Sys.Next;
    if ops != [] {
      NextKeepsSize(s, ops[0]);
      RunKeepsSize(s.Next(ops[0]), ops[1..], t);
    }
  }

  lemma {:induction false} NextKeepsSize(s: Sys, op: Op)
    requires s.Safe() && s.Enabled(op)
    ensures s.Next(op).ring.End() == s.ring.End()
  {
  }

  // ----- what stepping over costs -----

  lemma {:induction false} RunsOn(s: Sys, ops: seq<Op>, t: Sys, op: Op)
    requires Runs(s, ops, t) && t.Safe() && t.Enabled(op)
    ensures Runs(s, ops + [op], t.Next(op))
    decreases |ops|
  {
    hide Sys.Safe, Sys.Next, Sys.Enabled;
    if ops == [] {
      RunsStart(t.Next(op));
      RunsStep(s, op, [], t.Next(op));
      assert [op] + [] == [] + [op];
    } else {
      RunsOn(s.Next(ops[0]), ops[1..], t, op);
      RunsStep(s, ops[0], ops[1..] + [op], t.Next(op));
      assert [ops[0]] + (ops[1..] + [op]) == ops + [op];
    }
  }

  ghost predicate Reached(s: Sys, t: Sys) {
    t.Safe() && exists ops :: Runs(s, ops, t)
  }

  lemma {:induction false} ReachedOn(s: Sys, t: Sys, op: Op)
    requires Reached(s, t) && t.Enabled(op)
    ensures t.Safe() && Reached(s, t.Next(op))
  {
    hide Sys.Safe, Sys.Next, Sys.Enabled;
    var ops :| Runs(s, ops, t);
    SafeStep(t, op);
    RunsOn(s, ops, t, op);
  }

  lemma {:induction false} ReachedSafe(s: Sys, t: Sys)
    requires Reached(s, t)
    ensures t.Safe()
  {
  }

  /** The producer fills a slot. */
  lemma {:induction false} FillMore(s: Sys, t: Sys, m: Message) returns (u: Sys)
    requires Reached(s, t) && t.prod.Resting? && !t.Searching() && m != []
    ensures Reached(s, u)
    ensures var r := t.ring.Choose();
            var f := if r.Queued(r.ip) && t.fifo.waiting != [] then t.fifo.DropOldest() else t.fifo;
            u == Sys(Ring(r.slots[r.ip := m], r.ip, r.ip, r.iusing), Filling(r.ip), t.cons, f)
  {
    hide Reached;
    ReachedOn(s, t, Choose);
    var a := t.Next(Choose);
    ReachedOn(s, a, Claim);
    var b := a.Next(Claim);
    ReachedOn(s, b, Put(m));
    u := b.Next(Put(m));
    assert [] + m == m;
  }

  /** And commits it. */
  lemma {:induction false} CommitIt(s: Sys, t: Sys) returns (u: Sys)
    requires Reached(s, t) && t.prod.Filling? && t.prod.slot < t.ring.End() && t.ring.slots[t.prod.slot] != []
    ensures Reached(s, u)
    ensures u == Sys(Ring(t.ring.slots, t.ring.Incr(t.prod.slot), t.ring.End(), t.ring.iusing), Resting, t.cons,
                     t.fifo.Commit(t.ring.slots[t.prod.slot]))
  {
    hide Reached;
    ReachedSafe(s, t);
    ReachedOn(s, t, Advance);
    var a := t.Next(Advance);
    ReachedOn(s, a, Release);
    u := a.Next(Release);
  }

  /** The consumer takes the message in the slot to be written next, while nothing else happens. */
  lemma {:induction false} TakeNext(s: Sys, t: Sys) returns (u: Sys)
    requires Reached(s, t) && t.prod.Resting? && t.cons.Idle? && t.ring.Usable(t.ring.ip) && t.fifo.waiting != []
    ensures Reached(s, u)
    ensures u == Sys(t.ring.(iusing := t.ring.ip), Resting, Using(t.ring.ip), t.fifo.Take(0))
  {
    hide Reached;
    ReachedOn(s, t, Read(true));
    var a := t.Next(Read(true));
    ReachedOn(s, a, ReadAgain);
    var b := a.Next(ReadAgain);
    ReachedOn(s, b, Test);
    u := b.Next(Test);
  }

  /** And gives it back done. */
  lemma {:induction false} FreeIt(s: Sys, t: Sys) returns (u: Sys)
    requires Reached(s, t) && t.cons.Using? && t.cons.slot < t.ring.End()
    ensures Reached(s, u)
    ensures u == Sys(t.ring.(slots := t.ring.slots[t.cons.slot := []], iusing := t.ring.End()), t.prod, Idle,
                     t.fifo.Deliver())
  {
    hide Reached;
    ReachedSafe(s, t);
    ReachedOn(s, t, Clear);
    var a := t.Next(Clear);
    ReachedOn(s, a, Drop);
    u := a.Next(Drop);
  }

  /** Three messages in three slots. */
  lemma {:induction false} ThreeWait() returns (t: Sys)
    ensures Reached(Init(3), t) && t.ring == Ring([[1], [2], [3]], 0, 3, 3) && t.prod.Resting? && t.cons.Idle?
    ensures t.fifo.waiting == [0, 1, 2] && |t.fifo.log| == 3
  {
    hide Reached;
    var s := Init(3);
    InitReached(3);
    t := FillMore(s, s, [1]);
    assert t.ring.slots == [[1], [], []];
    t := CommitIt(s, t);
    assert t.ring.slots == [[1], [], []] && t.fifo.waiting == [0];
    t := FillMore(s, t, [2]);
    assert t.ring.slots == [[1], [2], []];
    t := CommitIt(s, t);
    assert t.ring.slots == [[1], [2], []] && t.fifo.waiting == [0, 1];
    t := FillMore(s, t, [3]);
    assert t.ring.slots == [[1], [2], [3]];
    t := CommitIt(s, t);
    assert t.ring.slots == [[1], [2], [3]] && t.fifo.waiting == [0, 1, 2];
  }

  /**
   Why the law asks for it: once the producer has stepped over the slot in use, a claim can drop a
   message although a slot is free.
   */
  lemma {:induction false} DropsBesideFreeSlot() returns (t: Sys)
    ensures Reached(Init(3), t) && t.prod.Choosing? && t.cons.Idle?
    ensures |t.ring.slots| == 3 && t.ring.slots[0] == [] && |t.fifo.waiting| == 2
    ensures t.Safe() && t.Next(Claim).fifo == t.fifo.DropOldest()
  {
    hide Reached;
    var s := Init(3);
    t := ThreeWait();
    t := TakeNext(s, t);
    assert t.ring == Ring([[1], [2], [3]], 0, 3, 0) && t.fifo.waiting == [1, 2];
    t := FillMore(s, t, [4]);
    assert t.ring.slots == [[1], [4], [3]] && t.ring.ip == 1 && t.fifo.waiting == [2];
    t := CommitIt(s, t);
    assert t.ring == Ring([[1], [4], [3]], 2, 3, 0) && t.fifo.waiting == [2, 3];
    t := FreeIt(s, t);
    assert t.ring == Ring([[], [4], [3]], 2, 3, 3) && t.fifo.waiting == [2, 3];
    ReachedOn(s, t, Choose);
    t := t.Next(Choose);
    ReachedSafe(s, t);
  }

  lemma {:induction false} InitReached(n: nat)
    requires n >= 2
    ensures Reached(Init(n), Init(n))
  {
    InitTracks(n);
    RunsStart(Init(n));
  }
}
