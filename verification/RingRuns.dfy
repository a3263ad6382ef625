/**
 Runs of the ring: a producer and a consumer on their own threads. Every access to a field the
 other thread writes is a step of its own; `alloc` and the search of `wait` exclude each other by
 the mutex, `done` and `fail` take no lock. A FIFO with its history runs along as the meaning of
 each step.
 */
module RingRuns {
  import opened Bytes
  import opened Ring

  /** `Choosing` is inside `alloc`, `Finishing` between the two writes of `done`. */
  datatype Producer = Resting | Choosing | Filling(slot: nat) | Finishing(slot: nat)

  /**
   `_findusable(ip_, decr(ip_))` reads `ip_` twice, in either order, before it tests any slot:
   `Reading` is between the two, `Testing` is about to test slot `p`. `there` is how many
   messages waited when `wait` began.
   */
  datatype Consumer =
    | Idle
    | Reading(first: nat, forStart: bool, there: nat)
    | Testing(p: nat, eop: nat, start: nat, there: nat)
    | Using(slot: nat)
    | Freeing(slot: nat)

  datatype Op =
    | Choose | Claim | Put(bytes: seq<byte>) | Advance | Release | FailAlloc
    | Read(forStart: bool) | ReadAgain | Test | Clear | Drop | FailUse

  datatype Sys = Sys(ring: Ring, prod: Producer, cons: Consumer, fifo: Fifo) {

    /** The consumer holds the mutex. */
    predicate Searching() {
      cons.Reading? || cons.Testing?
    }

    /** Each side keeps to its own protocol, and to the mutex. */
    predicate Enabled(op: Op) {
      match op
      case Choose => prod.Resting? && !Searching()
      case Claim => prod.Choosing?
      case Put(_) => prod.Filling?
      case Advance => prod.Filling?
      case FailAlloc => prod.Filling?
      case Release => prod.Finishing?
      case Read(_) => cons.Idle? && !prod.Choosing?
      case ReadAgain => cons.Reading?
      case Test => cons.Testing?
      case Clear => cons.Using?
      case FailUse => cons.Using?
      case Drop => cons.Freeing?
    }

    /** The step would end in an exit or assertion of the source, or take the other side's branch of `done`. */
    predicate Fatal(op: Op)
      requires Enabled(op)
    {
      match op
      case Choose => ring.AllocFatal()
      case Claim => ring.ip == ring.iusing
      case Put(_) => prod.slot != ring.ialloc
      case Advance => prod.slot != ring.ialloc || ring.DoneFatal(prod.slot)
      case FailAlloc => prod.slot != ring.ialloc || ring.DoneFatal(prod.slot)
      case Read(_) => ring.WaitFatal()
      case Clear => cons.slot == ring.ialloc || ring.DoneFatal(cons.slot)
      case FailUse => cons.slot == ring.ialloc || ring.DoneFatal(cons.slot)
      case _ => false
    }

    /** The search stands at the slot it read as `ip_`, and `done` has moved `ip_` on since. */
    predicate Stale() {
      cons.Testing? && cons.p == cons.start != ring.ip
    }

    /** It takes a message from that slot although others wait. */
    predicate Overtakes(op: Op) {
      op.Test? && Stale() && ring.Usable(cons.p) && |ring.Waiting()| > 1
    }

    /** Both reads of `ip_` came to nothing but that slot, and it cannot be taken. */
    predicate Misses(op: Op) {
      op.Test? && Stale() && cons.p == cons.eop && !ring.Usable(cons.p)
    }

    function Next(op: Op): Sys
      requires Safe() && Enabled(op)
    {
      match op
      case Choose => this.(ring := ring.Choose(), prod := Choosing)
      case Claim =>
        var drops := ring.Queued(ring.ip) && fifo.waiting != [];
        Sys(ring.Claim(), Filling(ring.ip), cons, if drops then fifo.DropOldest() else fifo)
      case Put(b) => this.(ring := ring.Put(b))
      case Advance => this.(ring := ring.Advance(), prod := Finishing(prod.slot))
      case Release =>
        var m := ring.slots[prod.slot];
        this.(ring := ring.Release(), prod := Resting, fifo := if m == [] then fifo else fifo.Commit(m))
      case FailAlloc => this.(ring := ring.Release(), prod := Resting)
      case Read(forStart) => this.(cons := Reading(ring.ip, forStart, |fifo.waiting|))
      case ReadAgain =>
        var p, last := if cons.forStart then cons.first else ring.ip, if cons.forStart then ring.ip else cons.first;
        this.(cons := Testing(p, ring.Decr(last), p, cons.there))
      case Test => if ring.Usable(cons.p) then Found() else Tested()
      case Clear => this.(ring := ring.Clear(), cons := Freeing(cons.slot), fifo := fifo.Deliver())
      case Drop => this.(ring := ring.Drop(), cons := Idle)
      case FailUse => this.(ring := ring.Drop(), cons := Idle)
    }

    /** The slot is taken: the newest message behind a moved `ip_`, and the oldest otherwise. */
    function Found(): Sys
      requires cons.Testing?
    {
      var n := |fifo.waiting|;
      Sys(ring.(iusing := cons.p), prod, Using(cons.p),
          if n == 0 then fifo else fifo.Take(if Stale() then n - 1 else 0))
    }

    /** The slot is not taken: on to the next one, or back with nothing. */
    function Tested(): Sys
      requires cons.Testing?
    {
      this.(cons := if cons.p == cons.eop then Idle else cons.(p := ring.Incr(cons.p)))
    }

    /** The two sides never hold the same slot, and the ring's pointers say what each holds. */
    predicate Safe() {
      && ring.Valid()
      && (match prod
          case Resting => ring.ialloc == ring.End()
          case Choosing => ring.ialloc == ring.End() && ring.ip != ring.iusing && !Searching()
          case Filling(p) => p < ring.End() && ring.ialloc == p && ring.ip == p
          case Finishing(p) => p < ring.End() && ring.ialloc == p && ring.ip == ring.Incr(p))
      && (match cons
          case Idle => ring.iusing == ring.End()
          case Reading(first, _, _) => ring.iusing == ring.End() && first < ring.End()
          case Testing(p, eop, start, _) =>
            ring.iusing == ring.End() && p < ring.End() && eop < ring.End() && start < ring.End()
          case Using(c) => c < ring.End() && ring.iusing == c
          case Freeing(c) => c < ring.End() && ring.iusing == c && ring.slots[c] == [])
      && ((prod.Filling? || prod.Finishing?) && (cons.Using? || cons.Freeing?) ==> prod.slot != cons.slot)
    }

    /** `done` has moved `ip_` on since the search began: what it then shows behind `ip_` is new. */
    ghost predicate Moved(there: nat) {
      && !prod.Filling?
      && there + |ring.Cell(ring.Decr(ring.ip))| <= |fifo.waiting|
    }

    /** What a search knows: it has passed nothing that waits, except what came while it went on. */
    ghost predicate Search()
      requires ring.Valid()
    {
      var ip := ring.ip;
      match cons
      case Reading(first, _, there) =>
        there <= |fifo.waiting| && (first == ip || (first == ring.Decr(ip) && Moved(there)))
      case Testing(p, eop, start, there) =>
        && there <= |fifo.waiting|
        && (if Stale() then start == ring.Decr(ip) && (eop == start || eop == ring.Decr(start)) && Moved(there)
            else
              && p < ring.End() && ring.Passed(p)
              && Offset(ip, p, ring.End()) <= Offset(ip, eop, ring.End())
              && (|| (eop == ring.Decr(ip) && start == ip)
                  || (eop == ring.Decr(ring.Decr(ip)) && (start == ip || start == ring.Decr(ip)) && Moved(there))))
      case _ => true
    }

    /** The ring shows exactly what the FIFO holds, and the slot in use is the message taken from it. */
    ghost predicate Tracks() {
      && Safe() && Search() && fifo.Placed()
      && ring.Waiting() == fifo.Messages(fifo.waiting)
      && (if cons.Using? then fifo.held != [] && fifo.Messages(fifo.held) == [ring.slots[cons.slot]]
          else fifo.held == [])
    }
  }

  function Init(n: nat): Sys
    requires n >= 2
  {
    Sys(Ring(seq(n, _ => []), 0, n, n), Resting, Idle, Fifo([], [], [], [], []))
  }

  /** No interleaving reaches a fatal branch, and none makes the two sides meet in a slot. */
  lemma {:induction false} SafeStep(s: Sys, op: Op)
    requires s.Safe() && s.Enabled(op)
    ensures !s.Fatal(op) && s.Next(op).Safe()
  {
    hide Sys.Safe, Sys.Next, Sys.Fatal;
    match op
    case Choose | Claim | Put(_) | Advance | Release | FailAlloc => ProducerIsSafe(s, op);
    case _ => ConsumerIsSafe(s, op);
  }

  lemma {:induction false} ProducerIsSafe(s: Sys, op: Op)
    requires s.Safe() && s.Enabled(op)
    requires op.Choose? || op.Claim? || op.Put? || op.Advance? || op.Release? || op.FailAlloc?
    ensures !s.Fatal(op) && s.Next(op).Safe()
  {
  }

  lemma {:induction false} ConsumerIsSafe(s: Sys, op: Op)
    requires s.Safe() && s.Enabled(op)
    requires op.Read? || op.ReadAgain? || op.Test? || op.Clear? || op.Drop? || op.FailUse?
    ensures !s.Fatal(op) && s.Next(op).Safe()
  {
  }

  /** A search goes on for at most one round. */
  lemma {:induction false} SearchEnds(s: Sys)
    requires s.Safe() && s.cons.Testing?
    ensures var t, n := s.Next(Test), s.ring.End();
            t.cons.Testing? ==> 0 <= Offset(t.cons.p, t.cons.eop, n) < Offset(s.cons.p, s.cons.eop, n) < n
  {
  }

  // ----- messages of the FIFO -----

  lemma {:induction false} MessagesGrow(f: Fifo, m: Message, ids: seq<nat>)
    requires forall i :: 0 <= i < |ids| ==> ids[i] < |f.log|
    ensures f.Commit(m).Messages(ids) == f.Messages(ids)
    decreases |ids|
  {
    if ids != [] {
      MessagesGrow(f, m, ids[1..]);
    }
  }

  lemma {:induction false} MessagesAppend(f: Fifo, a: seq<nat>, b: seq<nat>)
    ensures f.Messages(a + b) == f.Messages(a) + f.Messages(b)
    ensures |f.Messages(a)| == |a|
    decreases |a|
  {
    if a == [] {
      assert a + b == b;
    } else {
      assert (a + b)[1..] == a[1..] + b;
      MessagesAppend(f, a[1..], b);
    }
  }

  /** The messages of a FIFO depend on its log alone. */
  lemma {:induction false} MessagesOf(f: Fifo, g: Fifo, ids: seq<nat>)
    requires f.log == g.log
    ensures f.Messages(ids) == g.Messages(ids)
    decreases |ids|
  {
    if ids != [] {
      MessagesOf(f, g, ids[1..]);
    }
  }

  lemma {:induction false} FirstOf(f: Fifo, m: Message, rest: seq<Message>)
    requires f.Messages(f.waiting) == [m] + rest
    ensures f.waiting != [] && f.Messages([f.waiting[0]]) == [m] && f.Messages(f.waiting[1..]) == rest
  {
    var w := f.waiting;
    MessagesAppend(f, w, []);
    assert w == [w[0]] + w[1..];
    MessagesAppend(f, [w[0]], w[1..]);
    var a, b := f.Messages([w[0]]), f.Messages(w[1..]);
    assert a + b == [m] + rest;
    assert a == (a + b)[..1] && b == (a + b)[1..];
  }

  lemma {:induction false} LastOf(f: Fifo, m: Message, rest: seq<Message>)
    requires f.Messages(f.waiting) == rest + [m]
    ensures f.waiting != []
    ensures var n := |f.waiting| - 1; f.Messages([f.waiting[n]]) == [m] && f.Messages(f.waiting[..n]) == rest
  {
    var w := f.waiting;
    MessagesAppend(f, w, []);
    var n := |w| - 1;
    assert w == w[..n] + [w[n]];
    MessagesAppend(f, w[..n], [w[n]]);
    MessagesAppend(f, [w[n]], []);
    var a, b := f.Messages(w[..n]), f.Messages([w[n]]);
    assert a + b == rest + [m];
    assert a == (a + b)[..n] && b == (a + b)[n..];
  }

  lemma {:induction false} LastMessage(f: Fifo, m: Message)
    ensures f.Commit(m).Messages([|f.log|]) == [m]
  {
    var g := f.Commit(m);
    assert g.Messages([|f.log|]) == [g.log[|f.log|]] + g.Messages([]);
  }

  // ----- every step is a step of the FIFO -----

  /** Allocation is the FIFO dropping its oldest message, or nothing. */
  lemma {:induction false} AllocRefines(s: Sys, op: Op)
    requires s.Tracks() && s.Enabled(op) && (op.Choose? || op.Claim?)
    ensures s.Next(op).Tracks()
  {
    hide Ring.Scan, Fifo.Placed;
    SafeStep(s, op);
    var f, r := s.fifo, s.ring;
    if op.Choose? {
      if r.ip == r.iusing {
        StepOverInUse(r);
        ScanAgree(r, r.Choose(), r.Incr(r.ip), |r.slots|);
      }
    } else {
      ClaimDropsOldest(r);
      if r.Queued(r.ip) {
        FirstOf(f, r.slots[r.ip], r.Claim().Waiting());
        DropKeepsPlaced(f);
        MessagesOf(f, f.DropOldest(), f.waiting[1..]);
        MessagesOf(f, f.DropOldest(), f.held);
      } else {
        assert [] + r.Claim().Waiting() == r.Claim().Waiting();
      }
    }
  }

  lemma {:induction false} PutRefines(s: Sys, op: Op)
    requires s.Tracks() && s.Enabled(op) && op.Put?
    ensures s.Next(op).Tracks()
  {
    hide Ring.Scan, Fifo.Placed, Fifo.Messages;
    SafeStep(s, op);
    HeldSlotInvisible(s.ring, s.ring.Put(op.bytes));
  }

  /** The first write of `done` shows nothing, but a search that is under way may go stale. */
  lemma {:induction false} AdvanceRefines(s: Sys)
    requires s.Tracks() && s.prod.Filling?
    ensures s.Next(Advance).Tracks()
  {
    hide Ring.Scan, Fifo.Placed, Fifo.Messages;
    SafeStep(s, Advance);
    AdvanceKeeps(s.ring);
    if s.cons.Testing? && s.cons.p != s.ring.ip {
      PassedOn(s.ring, s.cons.p);
    }
  }

  lemma {:induction false} PassedOn(r: Ring, p: nat)
    requires r.Valid() && r.ip == r.ialloc < r.End() && p < r.End() && p != r.ip && r.Passed(p)
    ensures r.Advance().Passed(p) && Offset(r.Incr(r.ip), p, r.End()) == Offset(r.ip, p, r.End()) - 1
  {
    var t := r.Advance();
    forall i: int | 0 <= i < r.End() && Offset(t.ip, i, r.End()) < Offset(t.ip, p, r.End())
      ensures t.Cell(i) == []
    {
      assert i != r.ip && Offset(r.ip, i, r.End()) < Offset(r.ip, p, r.End());
      assert r.Cell(i) == t.Cell(i);
    }
  }

  /** Release is the FIFO's commit. */
  lemma {:induction false} ReleaseRefines(s: Sys)
    requires s.Tracks() && s.prod.Finishing?
    ensures s.Next(Release).Tracks()
  {
    hide Ring.Scan, Fifo.Placed, Fifo.Messages, Sys.Search, Ring.Waiting;
    SafeStep(s, Release);
    ReleaseAppends(s.ring, s.prod.slot);
    var f, m := s.fifo, s.ring.slots[s.prod.slot];
    if m == [] {
      assert f.Messages(f.waiting) + [] == f.Messages(f.waiting);
    } else {
      CommitShows(f, m);
    }
    ReleaseKeepsSearch(s);
  }

  lemma {:induction false} ReleaseKeepsSearch(s: Sys)
    requires s.Safe() && s.Search() && s.prod.Finishing?
    ensures s.Next(Release).Search()
  {
    hide Ring.Scan, Ring.Passed, Ring.Waiting;
    if s.cons.Testing? && !s.Stale() {
      PassedStays(s.ring, s.cons.p);
    }
  }

  /** What is committed now lies behind every search. */
  lemma {:induction false} PassedStays(r: Ring, p: nat)
    requires r.Valid() && r.ialloc < r.End() && r.ip == r.Incr(r.ialloc) && p < r.End() && r.Passed(p)
    ensures r.Release().Passed(p)
  {
    forall i: int | 0 <= i < r.End() && Offset(r.ip, i, r.End()) < Offset(r.ip, p, r.End())
      ensures r.Release().Cell(i) == []
    {
      assert i != r.ialloc;
      assert r.Cell(i) == [];
    }
  }

  lemma {:induction false} CommitShows(f: Fifo, m: Message)
    requires f.Placed()
    ensures var g := f.Commit(m);
            && g.Placed() && g.Messages(g.waiting) == f.Messages(f.waiting) + [m]
            && g.Messages(g.held) == f.Messages(f.held)
  {
    hide Fifo.Messages;
    CommitKeepsPlaced(f, m);
    InLog(f, f.waiting);
    InLog(f, f.held);
    MessagesGrow(f, m, f.waiting);
    MessagesGrow(f, m, f.held);
    MessagesAppend(f.Commit(m), f.waiting, [|f.log|]);
    LastMessage(f, m);
  }

  lemma {:induction false} ReadRefines(s: Sys, op: Op)
    requires s.Tracks() && s.Enabled(op) && (op.Read? || op.ReadAgain?)
    ensures s.Next(op).Tracks()
  {
    hide Ring.Scan, Ring.Cell, Fifo.Placed, Fifo.Messages;
    SafeStep(s, op);
  }

  /** A search takes a waiting message, and none but the oldest unless it is stale. */
  lemma {:induction false} FoundRefines(s: Sys)
    requires s.Tracks() && s.cons.Testing? && s.ring.Usable(s.cons.p)
    ensures s.fifo.waiting != [] && s.Next(Test).Tracks()
  {
    hide Ring.Scan, Fifo.Placed;
    SafeStep(s, Test);
    var f, p := s.fifo, s.cons.p;
    var m, rest, n := s.ring.slots[p], s.ring.(iusing := p).Waiting(), |f.waiting|;
    if s.Stale() {
      FoundNewest(s.ring, p);
      LastOf(f, m, rest);
      var g := f.Take(n - 1);
      assert f.waiting[..n - 1] + f.waiting[n..] == f.waiting[..n - 1];
      TakeKeepsPlaced(f, n - 1);
      MessagesOf(f, g, g.waiting);
      MessagesOf(f, g, g.held);
    } else {
      FoundOldest(s.ring, p);
      FirstOf(f, m, rest);
      var g := f.Take(0);
      assert f.waiting[..0] + f.waiting[1..] == f.waiting[1..];
      TakeKeepsPlaced(f, 0);
      MessagesOf(f, g, g.waiting);
      MessagesOf(f, g, g.held);
    }
  }

  lemma {:induction false} TestedRefines(s: Sys)
    requires s.Tracks() && s.cons.Testing? && !s.ring.Usable(s.cons.p)
    ensures s.Next(Test).Tracks()
  {
    hide Fifo.Placed, Fifo.Messages, Ring.Waiting, Ring.Passed;
    SafeStep(s, Test);
    if s.Stale() {
      NonePassed(s.ring);
    }
    if !s.Stale() && s.cons.p != s.cons.eop {
      PassedStep(s.ring, s.cons.p);
    }
  }

  lemma {:induction false} NonePassed(r: Ring)
    requires r.Valid()
    ensures r.Passed(r.ip)
  {
  }

  lemma {:induction false} PassedStep(r: Ring, p: nat)
    requires r.Valid() && p < r.End() && r.Passed(p) && !r.Usable(p) && p != r.Decr(r.ip)
    ensures r.Passed(r.Incr(p)) && Offset(r.ip, r.Incr(p), r.End()) == Offset(r.ip, p, r.End()) + 1
  {
    forall i: int | 0 <= i < r.End() && Offset(r.ip, i, r.End()) <= Offset(r.ip, p, r.End())
      ensures r.Cell(i) == []
    {
      assert i != p ==> Offset(r.ip, i, r.End()) != Offset(r.ip, p, r.End());
    }
  }

  lemma {:induction false} ClearRefines(s: Sys)
    requires s.Tracks() && s.cons.Using?
    ensures s.Next(Clear).Tracks()
  {
    hide Ring.Scan, Fifo.Placed, Fifo.Messages, Ring.Waiting;
    SafeStep(s, Clear);
    DeliverKeepsPlaced(s.fifo);
    MessagesOf(s.fifo, s.fifo.Deliver(), s.fifo.waiting);
    HeldSlotInvisible(s.ring, s.ring.Clear());
  }

  lemma {:induction false} DropRefines(s: Sys)
    requires s.Tracks() && s.cons.Freeing?
    ensures s.Next(Drop).Tracks()
  {
    hide Ring.Scan, Fifo.Placed, Fifo.Messages, Ring.Waiting;
    SafeStep(s, Drop);
    HeldSlotInvisible(s.ring, s.ring.Drop());
  }

  /** Every step of both sides is a step of the FIFO, or leaves it as it is. */
  lemma {:induction false} RefinesStep(s: Sys, op: Op)
    requires s.Tracks() && s.Enabled(op) && !op.FailAlloc? && !op.FailUse?
    ensures s.Next(op).Tracks()
  {
    hide Sys.Tracks, Sys.Next, Sys.Safe;
    match op
    case Choose => AllocRefines(s, op);
    case Claim => AllocRefines(s, op);
    case Put(_) => PutRefines(s, op);
    case Advance => AdvanceRefines(s);
    case Release => ReleaseRefines(s);
    case Read(_) => ReadRefines(s, op);
    case ReadAgain => ReadRefines(s, op);
    case Test => if s.ring.Usable(s.cons.p) { FoundRefines(s); } else { TestedRefines(s); }
    case Clear => ClearRefines(s);
    case Drop => DropRefines(s);
  }

  // ----- what a search does, exactly -----

  /**
   A search takes the oldest waiting message, unless it overtakes: it stands at the slot it read
   as `ip_` while that was being filled, which has been released since, and another message waits.
   Then it takes the newest.
   */
  lemma {:induction false} WaitTakesOldestExactly(s: Sys)
    requires s.Tracks() && s.cons.Testing? && s.ring.Usable(s.cons.p)
    ensures s.fifo.waiting != []
    ensures var m, t, n := s.ring.slots[s.cons.p], s.Next(Test), |s.fifo.waiting|;
            && (t.fifo == s.fifo.Take(0) <==> !s.Overtakes(Test))
            && (!s.Overtakes(Test) ==> s.ring.Waiting() == [m] + t.ring.Waiting())
            && (s.Overtakes(Test) ==> t.fifo == s.fifo.Take(n - 1) && s.ring.Waiting() == t.ring.Waiting() + [m])
  {
    hide Ring.Scan, Fifo.Placed, Fifo.Messages, Ring.Waiting;
    FoundRefines(s);
    var f, n := s.fifo, |s.fifo.waiting|;
    WaitingCount(s);
    if s.Stale() {
      FoundNewest(s.ring, s.cons.p);
      if n > 1 {
        assert Increasing(f.waiting, |f.log|) by { FifoIncreasing(f); }
        assert f.Take(n - 1).held[0] != f.Take(0).held[0];
      } else {
        var rest := s.ring.(iusing := s.cons.p).Waiting();
        assert |rest| == 0;
        assert rest + [s.ring.slots[s.cons.p]] == [s.ring.slots[s.cons.p]] + rest;
      }
    } else {
      FoundOldest(s.ring, s.cons.p);
    }
  }

  lemma {:induction false} FifoIncreasing(f: Fifo)
    requires f.Placed()
    ensures Increasing(f.waiting, |f.log|)
  {
  }

  lemma {:induction false} WaitingCount(s: Sys)
    requires s.Tracks()
    ensures |s.ring.Waiting()| == |s.fifo.waiting|
  {
    MessagesAppend(s.fifo, s.fifo.waiting, []);
  }

  /** A search that comes back with nothing found nothing waiting when it began, unless it misses. */
  lemma {:induction false} WaitMissesExactly(s: Sys)
    requires s.Tracks() && s.cons.Testing? && s.Next(Test).cons.Idle?
    ensures s.cons.there == 0 || s.Misses(Test)
    ensures s.Misses(Test) ==> s.cons.there <= |s.fifo.waiting| == |s.Next(Test).fifo.waiting|
  {
    hide Ring.Scan, Fifo.Placed, Fifo.Messages, Ring.Waiting, Ring.Passed;
    WaitingCount(s);
    if !s.Stale() {
      FoundNothing(s.ring, s.cons.p);
    }
  }

  /** Where nothing is disturbed, `wait` is the search of `_findusable` in one piece. */
  lemma {:induction false} WaitAlone(s: Sys) returns (ops: seq<Op>, t: Sys)
    requires s.Tracks() && s.Enabled(Read(true))
    ensures Runs(s, ops, t) && forall i :: 0 <= i < |ops| ==> ops[i].Read? || ops[i].ReadAgain? || ops[i].Test?
    ensures t.Tracks() && t.ring == s.ring.Wait()
    ensures t.cons.Idle? <==> s.fifo.waiting == []
    ensures t.fifo == if s.fifo.waiting == [] then s.fifo else s.fifo.Take(0)
  {
    hide Ring.Scan, Fifo.Placed, Fifo.Messages, Ring.Waiting;
    RefinesStep(s, Read(true));
    var a := s.Next(Read(true));
    RefinesStep(a, ReadAgain);
    var b := a.Next(ReadAgain);
    ops, t := TestsAlone(b);
    RunsStep(a, ReadAgain, ops, t);
    RunsStep(s, Read(true), [ReadAgain] + ops, t);
    ops := [Read(true)] + ([ReadAgain] + ops);
  }

  lemma {:induction false} TestsAlone(s: Sys) returns (ops: seq<Op>, t: Sys)
    requires s.Tracks() && s.cons.Testing? && s.cons.start == s.ring.ip && s.cons.eop == s.ring.Decr(s.ring.ip)
    requires s.cons.there == |s.fifo.waiting|
    ensures Runs(s, ops, t) && forall i :: 0 <= i < |ops| ==> ops[i].Test?
    ensures t.Tracks()
    ensures t.ring == s.ring.(iusing := s.ring.FindUsable(s.cons.p, Offset(s.cons.p, s.cons.eop, s.ring.End()) + 1))
    ensures t.cons.Idle? <==> s.fifo.waiting == []
    ensures t.fifo == if s.fifo.waiting == [] then s.fifo else s.fifo.Take(0)
    decreases Offset(s.cons.p, s.cons.eop, s.ring.End())
  {
    hide Ring.Scan, Fifo.Placed, Fifo.Messages, Ring.Waiting, Ring.Passed;
    RefinesStep(s, Test);
    var a := s.Next(Test);
    if s.ring.Usable(s.cons.p) {
      WaitTakesOldestExactly(s);
    } else if s.cons.p == s.cons.eop {
      WaitMissesExactly(s);
    } else {
      ops, t := TestsAlone(a);
      RunsStep(s, Test, ops, t);
      ops := [Test] + ops;
      return;
    }
    RunsStep(s, Test, [], a);
    ops, t := [Test] + [], a;
  }

  /** In whatever state a message waits while another is being filled, these steps let it be overtaken. */
  lemma {:induction false} OvertakenWhenever(s: Sys) returns (ops: seq<Op>, t: Sys)
    requires s.Tracks() && s.prod.Filling? && s.cons.Idle? && s.fifo.waiting != []
    requires s.ring.slots[s.prod.slot] != []
    ensures ops == [Read(true), ReadAgain, Advance, Release, Test] && Runs(s, ops, t)
    ensures t.fifo.held == [|s.fifo.log|] && t.fifo.waiting == s.fifo.waiting && !t.fifo.InOrder()
  {
    hide Ring.Scan, Fifo.Placed, Fifo.Messages, Ring.Waiting, Fifo.InOrder;
    var a := s.Next(Read(true));
    var b := a.Next(ReadAgain);
    var c := b.Next(Advance);
    var d := c.Next(Release);
    t := d.Next(Test);
    RunsStep(d, Test, [], t);
    RunsStep(c, Release, [Test], t);
    RunsStep(b, Advance, [Release, Test], t);
    RunsStep(a, ReadAgain, [Advance, Release, Test], t);
    RunsStep(s, Read(true), [ReadAgain, Advance, Release, Test], t);
    ops := [Read(true), ReadAgain, Advance, Release, Test];
    NewestTaken(s.fifo, s.ring.slots[s.prod.slot]);
  }

  lemma {:induction false} NewestTaken(f: Fifo, m: Message)
    requires f.Placed() && f.waiting != []
    ensures var g := f.Commit(m).Take(|f.waiting|);
            g.held == [|f.log|] && g.waiting == f.waiting && !g.InOrder()
  {
    var g := f.Commit(m).Take(|f.waiting|);
    var all, n := g.delivered + g.held + g.waiting, |g.delivered|;
    assert all[n] == |f.log| && all[n + 1] == f.waiting[0];
  }

  /** And these let the search come back with nothing although messages wait. */
  lemma {:induction false} MissedWhenever(s: Sys) returns (ops: seq<Op>, t: Sys)
    requires s.Tracks() && s.prod.Filling? && s.cons.Idle?
    ensures ops == [Read(true), Advance, ReadAgain, Test] && Runs(s, ops, t)
    ensures t.cons.Idle? && t.fifo == s.fifo
  {
    hide Ring.Scan, Fifo.Placed, Fifo.Messages, Ring.Waiting;
    var a := s.Next(Read(true));
    var b := a.Next(Advance);
    var c := b.Next(ReadAgain);
    t := c.Next(Test);
    RunsStep(c, Test, [], t);
    RunsStep(b, ReadAgain, [Test], t);
    RunsStep(a, Advance, [ReadAgain, Test], t);
    RunsStep(s, Read(true), [Advance, ReadAgain, Test], t);
    ops := [Read(true), Advance, ReadAgain, Test];
  }

  /** Such a state is reached from every empty ring. */
  lemma {:induction false} WaitingWhileFilling(n: nat, m: Message) returns (ops: seq<Op>, t: Sys)
    requires n >= 2 && m != []
    ensures Runs(Init(n), ops, t) && t.Tracks()
    ensures t.prod.Filling? && t.cons.Idle? && t.fifo.waiting == [0] && t.ring.slots[t.prod.slot] == m
  {
    hide Sys.Tracks, Runs, Ring.Scan;
    InitTracks(n);
    var s := Init(n);
    var a := FillOne(s, m);
    RefinesStep(a, Advance);
    var b := a.Next(Advance);
    RefinesStep(b, Release);
    var c := b.Next(Release);
    t := FillOne(c, m);
    RunsStart(t);
    var three := [Choose] + ([Claim] + ([Put(m)] + []));
    ops := [Choose] + ([Claim] + ([Put(m)] + ([Advance] + ([Release] + three))));
    FillRuns(c, m, [], t);
    RunsStep(b, Release, three, t);
    RunsStep(a, Advance, [Release] + three, t);
    FillRuns(s, m, [Advance] + ([Release] + three), t);
  }

  lemma {:induction false} RunsStart(t: Sys)
    ensures Runs(t, [], t)
  {
  }

  /** The producer fills an empty slot while the consumer rests. */
  lemma {:induction false} FillOne(s: Sys, m: Message) returns (t: Sys)
    requires s.Tracks() && s.prod.Resting? && s.cons.Idle? && s.ring.slots[s.ring.ip] == []
    ensures Filled(s, m, t)
    ensures t == Sys(Ring(s.ring.slots[s.ring.ip := m], s.ring.ip, s.ring.ip, s.ring.End()),
                     Filling(s.ring.ip), Idle, s.fifo)
    ensures t.Tracks()
  {
    hide Ring.Scan, Fifo.Placed, Fifo.Messages, Ring.Waiting;
    RefinesStep(s, Choose);
    var a := s.Next(Choose);
    RefinesStep(a, Claim);
    var b := a.Next(Claim);
    RefinesStep(b, Put(m));
    t := b.Next(Put(m));
    assert [] + m == m;
  }

  ghost predicate Filled(s: Sys, m: Message, t: Sys)
    requires s.Safe() && s.prod.Resting? && s.cons.Idle?
  {
    var a := s.Next(Choose);
    a.Safe() && a.Enabled(Claim) && a.Next(Claim).Safe() && a.Next(Claim).Enabled(Put(m))
    && t == a.Next(Claim).Next(Put(m))
  }

  lemma {:induction false} FillRuns(s: Sys, m: Message, ops: seq<Op>, t: Sys)
    requires s.Safe() && s.prod.Resting? && s.cons.Idle?
    requires exists a :: Filled(s, m, a) && Runs(a, ops, t)
    ensures Runs(s, [Choose] + ([Claim] + ([Put(m)] + ops)), t)
  {
    hide Runs, Sys.Safe;
    var a := s.Next(Choose);
    var b := a.Next(Claim);
    RunsStep(b, Put(m), ops, t);
    RunsStep(a, Claim, [Put(m)] + ops, t);
    RunsStep(s, Choose, [Claim] + ([Put(m)] + ops), t);
  }

  // ----- runs -----

  /** The states a run passes through, when every operation is enabled where it stands. */
  ghost predicate Runs(s: Sys, ops: seq<Op>, t: Sys)
    decreases |ops|
  {
    if ops == [] then s == t
    else s.Safe() && s.Enabled(ops[0]) && Runs(s.Next(ops[0]), ops[1..], t)
  }

  lemma {:induction false} RunsStep(s: Sys, op: Op, ops: seq<Op>, t: Sys)
    requires s.Safe() && s.Enabled(op)
    ensures Runs(s.Next(op), ops, t) ==> Runs(s, [op] + ops, t)
  {
    hide Sys.Safe, Sys.Next;
    assert ([op] + ops)[1..] == ops;
  }

  lemma {:induction false} InitTracks(n: nat)
    requires n >= 2
    ensures Init(n).Tracks() && Init(n).fifo.InOrder()
  {
    EmptyScan(Init(n).ring, 0, n);
  }

  lemma {:induction false} EmptyScan(r: Ring, p: nat, k: nat)
    requires forall i :: 0 <= i < |r.slots| ==> r.slots[i] == []
    ensures r.Scan(p, k) == []
    decreases k
  {
    if k > 0 {
      EmptyScan(r, r.Incr(p), k - 1);
    }
  }

  /** Safety over every interleaving, `fail` included. */
  lemma {:induction false} RunsAreSafe(s: Sys, ops: seq<Op>, t: Sys)
    requires s.Safe() && Runs(s, ops, t)
    ensures t.Safe() && forall op :: t.Enabled(op) ==> !t.Fatal(op)
    decreases |ops|
  {
    hide Sys.Safe, Sys.Next, Sys.Fatal, Sys.Enabled;
    if ops == [] {
      forall op | t.Enabled(op) ensures !t.Fatal(op) {
        SafeStep(t, op);
      }
    } else {
      SafeStep(s, ops[0]);
      RunsAreSafe(s.Next(ops[0]), ops[1..], t);
    }
  }

  ghost predicate NoFail(ops: seq<Op>) {
    forall i :: 0 <= i < |ops| ==> !ops[i].FailAlloc? && !ops[i].FailUse?
  }

  /** No search of the run overtakes. */
  ghost predicate NeverOvertakes(s: Sys, ops: seq<Op>)
    decreases |ops|
  {
    ops != [] && s.Safe() && s.Enabled(ops[0]) ==> !s.Overtakes(ops[0]) && NeverOvertakes(s.Next(ops[0]), ops[1..])
  }

  /** In every state of the run what has been taken so far is in commit order. */
  ghost predicate InOrderThroughout(s: Sys, ops: seq<Op>)
    decreases |ops|
  {
    && s.fifo.InOrder()
    && (ops != [] && s.Safe() && s.Enabled(ops[0]) ==> InOrderThroughout(s.Next(ops[0]), ops[1..]))
  }

  /** One step leaves the order of commits exactly when it overtakes. */
  lemma {:induction false} OrderStep(s: Sys, op: Op)
    requires s.Tracks() && s.fifo.InOrder() && s.Enabled(op) && !op.FailAlloc? && !op.FailUse?
    ensures s.Next(op).fifo.InOrder() <==> !s.Overtakes(op)
  {
    hide Ring.Scan, Fifo.Placed, Fifo.Messages, Fifo.InOrder, Ring.Waiting, Sys.Search;
    if op.Test? && s.ring.Usable(s.cons.p) {
      FoundRefines(s);
      WaitingCount(s);
      TakeInOrderExactly(s.fifo, if s.Stale() then |s.fifo.waiting| - 1 else 0);
    } else {
      OthersKeepOrder(s.fifo, if op.Release? then s.ring.slots[s.prod.slot] else []);
    }
  }

  /** Over every run without `fail`: deliveries are in commit order throughout if and only if no search overtakes. */
  lemma {:induction false} InOrderExactly(s: Sys, ops: seq<Op>, t: Sys)
    requires s.Tracks() && s.fifo.InOrder() && Runs(s, ops, t) && NoFail(ops)
    ensures InOrderThroughout(s, ops) <==> NeverOvertakes(s, ops)
    decreases |ops|
  {
    hide Sys.Tracks, Sys.Next, Sys.Enabled, Fifo.InOrder, Sys.Safe, Sys.Overtakes;
    if ops != [] {
      RefinesStep(s, ops[0]);
      OrderStep(s, ops[0]);
      if !s.Overtakes(ops[0]) {
        InOrderExactly(s.Next(ops[0]), ops[1..], t);
      } else {
        assert !s.Next(ops[0]).fifo.InOrder();
      }
    }
  }

  /**
   The ring over every run without `fail`: it shows exactly what a FIFO that drops its oldest
   message holds, and while no search overtakes that FIFO delivers in commit order.
   */
  lemma {:induction false} RunsRefineFifo(s: Sys, ops: seq<Op>, t: Sys)
    requires s.Tracks() && Runs(s, ops, t) && NoFail(ops)
    ensures t.Tracks()
    ensures s.fifo.InOrder() && NeverOvertakes(s, ops) ==> t.fifo.InOrder()
    decreases |ops|
  {
    hide Sys.Tracks, Sys.Next, Sys.Enabled, Fifo.InOrder, Sys.Safe, Sys.Overtakes;
    if ops != [] {
      RefinesStep(s, ops[0]);
      if s.fifo.InOrder() {
        OrderStep(s, ops[0]);
      }
      RunsRefineFifo(s.Next(ops[0]), ops[1..], t);
    }
  }

  /** `done` moves `ip_` on only while no search is under way, as it would under the mutex. */
  ghost predicate Locked(s: Sys, ops: seq<Op>)
    decreases |ops|
  {
    ops != [] && s.Safe() && s.Enabled(ops[0]) ==>
      !(ops[0].Advance? && s.Searching()) && Locked(s.Next(ops[0]), ops[1..])
  }

  /** What a search has read as `ip_` is still `ip_`. */
  predicate Settled(s: Sys) {
    match s.cons
    case Reading(first, _, _) => first == s.ring.ip
    case Testing(_, _, start, _) => start == s.ring.ip
    case _ => true
  }

  lemma {:induction false} SettledStep(s: Sys, op: Op)
    requires s.Safe() && Settled(s) && s.Enabled(op) && !(op.Advance? && s.Searching())
    ensures Settled(s.Next(op)) && !s.Overtakes(op) && !s.Misses(op)
  {
    hide Ring.Waiting;
  }

  /** With the mutex around `done` no search would ever overtake. */
  lemma {:induction false} LockedNeverOvertakes(s: Sys, ops: seq<Op>, t: Sys)
    requires s.Safe() && Settled(s) && Runs(s, ops, t) && Locked(s, ops)
    ensures NeverOvertakes(s, ops)
    decreases |ops|
  {
    hide Sys.Next, Sys.Enabled, Sys.Safe, Sys.Overtakes, Settled;
    if ops != [] {
      SafeStep(s, ops[0]);
      SettledStep(s, ops[0]);
      LockedNeverOvertakes(s.Next(ops[0]), ops[1..], t);
    }
  }

  /**
   What this means for a user of the ring, over every run from an empty ring without `fail`: every
   commit is exactly one of delivered, in use, waiting or overwritten, what was overwritten is
   older than all that waits, and the slots read cyclically from `ip_` are the waiting messages in
   commit order; so are the deliveries while no search overtakes.
   */
  lemma {:induction false} EveryCommitAccounted(n: nat, ops: seq<Op>, t: Sys)
    requires n >= 2 && Runs(Init(n), ops, t) && NoFail(ops)
    ensures forall id: nat :: id < |t.fifo.log| ==>
              multiset(t.fifo.delivered)[id] + multiset(t.fifo.held)[id]
              + multiset(t.fifo.waiting)[id] + multiset(t.fifo.dropped)[id] == 1
    ensures Increasing(t.fifo.waiting, |t.fifo.log|) && Before(t.fifo.dropped, t.fifo.waiting)
    ensures t.ring.Waiting() == t.fifo.Messages(t.fifo.waiting)
    ensures NeverOvertakes(Init(n), ops) ==> Increasing(t.fifo.delivered, |t.fifo.log|)
  {
    hide Sys.Tracks, Fifo.InOrder, Runs, NoFail, NeverOvertakes, Init, Increasing, Before, Ring.Waiting, Fifo.Messages;
    InitTracks(n);
    RunsRefineFifo(Init(n), ops, t);
    var f := t.fifo;
    TracksGives(t);
    forall id: nat | id < |f.log|
      ensures multiset(f.delivered)[id] + multiset(f.held)[id] + multiset(f.waiting)[id] + multiset(f.dropped)[id] == 1
    {
      ExactlyOnePlace(f, id);
    }
    if f.InOrder() {
      DeliveredInOrder(f);
    }
  }

  lemma {:induction false} TracksGives(s: Sys)
    requires s.Tracks()
    ensures s.fifo.Placed() && s.ring.Waiting() == s.fifo.Messages(s.fifo.waiting)
    ensures Increasing(s.fifo.waiting, |s.fifo.log|) && Before(s.fifo.dropped, s.fifo.waiting)
  {
    hide Ring.Waiting, Fifo.Messages, Increasing, Before;
  }

  lemma {:induction false} DeliveredInOrder(f: Fifo)
    requires f.InOrder()
    ensures Increasing(f.delivered, |f.log|)
  {
    var all := f.delivered + f.held + f.waiting;
    assert forall i :: 0 <= i < |f.delivered| ==> all[i] == f.delivered[i];
  }
}
