/**
 The producer/consumer ring of network/epoll/buffer.hpp, as a state on values. Slots are
 numbered from 0, and the number of slots stands for `end()`.
 */
module Ring {
  import opened Bytes
  import opened Sequences

  type Message = seq<byte>

  datatype Ring = Ring(slots: seq<Message>, ip: nat, ialloc: nat, iusing: nat) {
    function End(): nat { |slots| }

    predicate Valid() {
      |slots| >= 2 && ip < |slots| && ialloc <= |slots| && iusing <= |slots|
    }

    function Incr(i: nat): nat {
      if i + 1 == End() then 0 else i + 1
    }

    function Decr(i: nat): nat {
      if i == 0 then if End() > 0 then End() - 1 else 0 else i - 1
    }

    /** A committed message waits in slot `i`: neither side holds it. */
    predicate Queued(i: nat) {
      i < |slots| && i != ialloc && i != iusing && slots[i] != []
    }

    function Cell(i: nat): seq<Message> {
      if Queued(i) then [slots[i]] else []
    }

    /** The waiting messages in `k` slots from `p` on, cyclically. */
    function Scan(p: nat, k: nat): seq<Message>
      decreases k
    {
      if k == 0 then [] else Cell(p) + Scan(Incr(p), k - 1)
    }

    /** All waiting messages, read cyclically from the slot to be written next. */
    function Waiting(): seq<Message> {
      Scan(ip, |slots|)
    }

    // ----- the writes of each operation -----

    /** The first part of `alloc`: it steps over the slot in use. */
    function Choose(): Ring {
      if ip == iusing then this.(ip := Incr(ip)) else this
    }

    /** The second part: the slot `ip` has come to is emptied and allocated. */
    function Claim(): Ring
      requires Valid()
    {
      Ring(slots[ip := []], ip, ip, iusing)
    }

    /** All of `alloc`. */
    function Alloc(): Ring
      requires Valid()
    {
      Choose().Claim()
    }

    function Put(p: seq<byte>): Ring {
      if ialloc < |slots| then this.(slots := slots[ialloc := slots[ialloc] + p]) else this
    }

    /** The first write of `done` on the allocated slot; `done` takes no lock. */
    function Advance(): Ring {
      this.(ip := Incr(ialloc))
    }

    /** The second write of `done` on the allocated slot: here the message becomes visible. */
    function Release(): Ring {
      this.(ialloc := End())
    }

    /** The test `_findusable` puts to a slot: neither allocated nor empty. */
    predicate Usable(i: nat) {
      i < |slots| && i != ialloc && slots[i] != []
    }

    /** `_findusable` over `k` slots from `p` on, when nothing else happens meanwhile. */
    function FindUsable(p: nat, k: nat): (i: nat)
      ensures i <= |slots|
      decreases k
    {
      if k == 0 then End()
      else if Usable(p) then p
      else FindUsable(Incr(p), k - 1)
    }

    /** A search that has come to `p` has passed no waiting message. */
    ghost predicate Passed(p: nat) {
      forall i: int :: 0 <= i < |slots| && Offset(ip, i, |slots|) < Offset(ip, p, |slots|) ==> Cell(i) == []
    }

    /** `wait`, when nothing else happens meanwhile. */
    function Wait(): Ring {
      this.(iusing := FindUsable(ip, |slots|))
    }

    /** The first write of `done` on the slot in use. */
    function Clear(): Ring {
      if iusing < |slots| then this.(slots := slots[iusing := []]) else this
    }

    /** The second write of `done` on the slot in use, and the only one of `fail`. */
    function Drop(): Ring {
      this.(iusing := End())
    }

    // ----- the fatal branches -----

    /** `alloc` aborts when a slot is still allocated, or when both candidates are in use. */
    predicate AllocFatal() {
      ialloc != End() || (ip == iusing && Incr(ip) == iusing)
    }

    predicate WaitFatal() {
      iusing != End()
    }

    /** `done` and `fail` abort on a slot that is neither, and on an allocated slot `ip` has left. */
    predicate DoneFatal(j: nat) {
      if j == ialloc then ip != ialloc else j != iusing
    }
  }

  /** The distance from `p` to `i` going round. */
  function Offset(p: nat, i: nat, n: nat): int {
    if p <= i then i - p else i - p + n
  }

  /** Scans depend only on the cells they pass. */
  lemma {:induction false} ScanAgree(r: Ring, s: Ring, p: nat, k: nat)
    requires |r.slots| == |s.slots| && p < |r.slots| && k <= |r.slots|
    requires forall i :: 0 <= i < |r.slots| && Offset(p, i, |r.slots|) < k ==> r.Cell(i) == s.Cell(i)
    ensures r.Scan(p, k) == s.Scan(p, k)
    decreases k
  {
    if k > 0 {
      assert Offset(p, p, |r.slots|) == 0;
      var q := r.Incr(p);
      forall i | 0 <= i < |r.slots| && Offset(q, i, |r.slots|) < k - 1
        ensures r.Cell(i) == s.Cell(i)
      {
        assert Offset(p, i, |r.slots|) == Offset(q, i, |r.slots|) + 1;
      }
      ScanAgree(r, s, q, k - 1);
    }
  }

  lemma {:induction false} ScanStep(r: Ring, p: nat, k: nat)
    ensures r.Scan(p, k) == if k == 0 then [] else r.Cell(p) + r.Scan(r.Incr(p), k - 1)
  {
  }

  /** The slot `k` steps from `p`. */
  function Around(r: Ring, p: nat, k: nat): nat {
    if p + k < |r.slots| then p + k else p + k - |r.slots|
  }

  lemma {:induction false} ScanLast(r: Ring, p: nat, k: nat)
    requires p < |r.slots| && k < |r.slots|
    ensures r.Scan(p, k + 1) == r.Scan(p, k) + r.Cell(Around(r, p, k))
    decreases k
  {
    hide Ring.Scan, Ring.Cell;
    ScanStep(r, p, k + 1);
    ScanStep(r, p, k);
    if k == 0 {
      ScanStep(r, r.Incr(p), 0);
    } else {
      ScanLast(r, r.Incr(p), k - 1);
      assert Around(r, r.Incr(p), k - 1) == Around(r, p, k);
      AppendAssoc(r.Cell(p), r.Scan(r.Incr(p), k - 1), r.Cell(Around(r, p, k)));
    }
  }

  /** Starting one slot later moves the first cell to the back. */
  lemma {:induction false} ScanRotate(r: Ring, p: nat)
    requires r.Valid() && p < |r.slots|
    ensures r.Scan(p, |r.slots|) == r.Cell(p) + r.Scan(r.Incr(p), |r.slots| - 1)
    ensures r.Scan(r.Incr(p), |r.slots|) == r.Scan(r.Incr(p), |r.slots| - 1) + r.Cell(p)
  {
    ScanLast(r, r.Incr(p), |r.slots| - 1);
    assert Around(r, r.Incr(p), |r.slots| - 1) == p;
  }

  /** A slot behind `p` does not lie in the scan of the others. */
  lemma {:induction false} ScanOthers(r: Ring, s: Ring, x: nat)
    requires r.Valid() && |r.slots| == |s.slots| && x < |r.slots|
    requires forall i :: 0 <= i < |r.slots| && i != x ==> r.Cell(i) == s.Cell(i)
    ensures r.Scan(r.Incr(x), |r.slots| - 1) == s.Scan(r.Incr(x), |r.slots| - 1)
  {
    forall i | 0 <= i < |r.slots| && Offset(r.Incr(x), i, |r.slots|) < |r.slots| - 1
      ensures r.Cell(i) == s.Cell(i)
    {
      assert i != x;
    }
    ScanAgree(r, s, r.Incr(x), |r.slots| - 1);
  }

  lemma {:induction false} ClaimFirst(r: Ring, p: nat, k: nat)
    requires r.Valid() && r.Queued(p) && r.iusing == r.End() && 0 < k <= |r.slots|
    ensures r.(iusing := p).Scan(p, k) == r.Scan(r.Incr(p), k - 1)
  {
    hide Ring.Scan;
    var s, q := r.(iusing := p), r.Incr(p);
    ScanStep(s, p, k);
    forall i | 0 <= i < |r.slots| && Offset(q, i, |r.slots|) < k - 1
      ensures r.Cell(i) == s.Cell(i)
    {
      assert i != p;
    }
    ScanAgree(r, s, q, k - 1);
    assert [] + s.Scan(q, k - 1) == s.Scan(q, k - 1);
  }

  /** `_findusable` finds the first waiting message, while none is in use. */
  lemma {:induction false} FindFirst(r: Ring, p: nat, k: nat)
    requires r.Valid() && r.iusing == r.End() && p < |r.slots| && k <= |r.slots|
    ensures var j := r.FindUsable(p, k);
            if r.Scan(p, k) == [] then j == r.End()
            else r.Queued(j) && r.Scan(p, k) == [r.slots[j]] + r.(iusing := j).Scan(p, k)
    decreases k
  {
    hide Ring.Scan;
    ScanStep(r, p, k);
    if k > 0 {
      var j := r.FindUsable(p, k);
      if r.Queued(p) {
        ClaimFirst(r, p, k);
      } else {
        var s, q := r.(iusing := j), r.Incr(p);
        FindFirst(r, q, k - 1);
        ScanStep(s, p, k);
        assert [] + s.Scan(q, k - 1) == s.Scan(q, k - 1) && [] + r.Scan(q, k - 1) == r.Scan(q, k - 1);
      }
    }
  }

  // ----- what each write does to the waiting messages -----

  /** A slot in use shows nothing, so stepping over it does not change what is waiting. */
  lemma {:induction false} StepOverInUse(r: Ring)
    requires r.Valid() && r.ip == r.iusing
    ensures r.Scan(r.Incr(r.ip), |r.slots|) == r.Waiting()
  {
    ScanRotate(r, r.ip);
    assert r.Cell(r.ip) == [];
    var rest := r.Scan(r.Incr(r.ip), |r.slots| - 1);
    assert [] + rest == rest + [];
  }

  /** Claiming a slot overwrites the oldest waiting message if that is what it holds. */
  lemma {:induction false} ClaimDropsOldest(r: Ring)
    requires r.Valid() && r.ialloc == r.End() && r.ip != r.iusing
    ensures r.Waiting() == r.Cell(r.ip) + r.Claim().Waiting()
  {
    hide Ring.Scan;
    var i, s := r.ip, r.Claim();
    ScanRotate(r, i);
    ScanRotate(s, i);
    assert s.Cell(i) == [];
    assert forall k :: 0 <= k < |r.slots| && k != i ==> r.Cell(k) == s.Cell(k);
    ScanOthers(r, s, i);
    var rest := s.Scan(r.Incr(i), |r.slots| - 1);
    assert [] + rest == rest;
  }

  /** Allocation keeps the waiting messages, except that it overwrites the oldest if that is in its way. */
  lemma {:induction false} AllocDropsOldest(r: Ring)
    requires r.Valid() && r.ialloc == r.End()
    ensures var s := r.Alloc();
            && s.Valid() && s.ialloc == s.ip < s.End() && s.ip != r.iusing
            && r.Waiting() == r.Cell(s.ip) + s.Waiting()
  {
    hide Ring.Scan;
    if r.ip == r.iusing {
      StepOverInUse(r);
      ScanAgree(r, r.Choose(), r.Incr(r.ip), |r.slots|);
    }
    ClaimDropsOldest(r.Choose());
  }

  /** Moving `ip` past the slot being committed shows nothing yet. */
  lemma {:induction false} AdvanceKeeps(r: Ring)
    requires r.Valid() && r.ip == r.ialloc < r.End()
    ensures r.Advance().Valid() && r.Advance().Waiting() == r.Waiting()
  {
    var s := r.Advance();
    ScanRotate(r, r.ip);
    ScanRotate(s, r.ip);
    ScanOthers(r, s, r.ip);
    assert r.Cell(r.ip) == s.Cell(r.ip) == [];
  }

  /** A released message joins at the end, unless it is empty. */
  lemma {:induction false} ReleaseAppends(r: Ring, i: nat)
    requires r.Valid() && i < r.End() && r.ialloc == i && i != r.iusing && r.ip == r.Incr(i)
    ensures r.Release().Valid()
    ensures r.Release().Waiting() == r.Waiting() + if r.slots[i] == [] then [] else [r.slots[i]]
  {
    hide Ring.Scan;
    var s := r.Release();
    ScanRotate(r, i);
    ScanRotate(s, i);
    ScanOthers(r, s, i);
    assert r.Cell(i) == [];
  }

  /** Writing into the allocated slot, or emptying the slot in use, shows nothing. */
  lemma {:induction false} HeldSlotInvisible(r: Ring, s: Ring)
    requires r.Valid() && s.Valid() && |r.slots| == |s.slots| && r.ip == s.ip
    requires forall i :: 0 <= i < |r.slots| ==> r.Cell(i) == s.Cell(i)
    ensures s.Waiting() == r.Waiting()
  {
    ScanAgree(r, s, r.ip, |r.slots|);
  }

  /** Puts into the slot allocated show, once it is released, as one message: all bytes in their order. */
  lemma {:induction false} PutsShow(r: Ring, a: seq<byte>, b: seq<byte>)
    requires r.Valid() && r.ialloc == r.End() && r.ip != r.iusing && a + b != []
    ensures var s := r.Claim().Put(a).Put(b);
            && s.Valid() && s.ialloc == r.ip && s.Waiting() == r.Claim().Waiting()
            && s.Advance().Release().Waiting() == r.Claim().Waiting() + [a + b]
  {
    hide Ring.Scan;
    var s := r.Claim().Put(a).Put(b);
    HeldSlotInvisible(r.Claim(), s);
    AdvanceKeeps(s);
    ReleaseAppends(s.Advance(), r.ip);
    assert [] + a + b == a + b;
  }

  /** A message given back with `fail` waits again, in the place it had. */
  lemma {:induction false} FailShowsAgain(r: Ring, p: nat)
    requires r.Valid() && r.iusing == r.End() && r.Queued(p)
    ensures r.(iusing := p).Drop() == r
  {
  }

  // ----- what a search finds -----

  /** Cells with nothing in them can be left out of a scan. */
  lemma {:induction false} SkipEmpty(r: Ring, q: nat, p: nat, k: nat)
    requires r.Valid() && q < |r.slots| && p < |r.slots| && Offset(q, p, |r.slots|) <= k <= |r.slots|
    requires forall i: int ::
               0 <= i < |r.slots| && Offset(q, i, |r.slots|) < Offset(q, p, |r.slots|) ==> r.Cell(i) == []
    ensures r.Scan(q, k) == r.Scan(p, k - Offset(q, p, |r.slots|))
    decreases k
  {
    hide Ring.Scan, Ring.Cell;
    var n := |r.slots|;
    if q != p {
      assert Offset(q, q, n) == 0;
      ScanStep(r, q, k);
      var q' := r.Incr(q);
      forall i: int | 0 <= i < n && Offset(q', i, n) < Offset(q', p, n) ensures r.Cell(i) == [] {
        assert Offset(q, i, n) < Offset(q, p, n);
      }
      SkipEmpty(r, q', p, k - 1);
      assert [] + r.Scan(q', k - 1) == r.Scan(q', k - 1);
    }
  }

  /** A message found after passing none is the oldest. */
  lemma {:induction false} FoundOldest(r: Ring, p: nat)
    requires r.Valid() && r.iusing == r.End() && p < |r.slots| && r.Passed(p) && r.Usable(p)
    ensures r.Waiting() == [r.slots[p]] + r.(iusing := p).Waiting()
  {
    hide Ring.Scan;
    var s, n := r.(iusing := p), |r.slots|;
    var k := n - Offset(r.ip, p, n);
    SkipEmpty(r, r.ip, p, n);
    SkipEmpty(s, s.ip, p, n);
    ClaimFirst(r, p, k);
    ScanStep(r, p, k);
  }

  /** The slot just behind `ip` is the last one looked at: a message found there is the newest. */
  lemma {:induction false} FoundNewest(r: Ring, p: nat)
    requires r.Valid() && r.iusing == r.End() && p < |r.slots| && r.ip == r.Incr(p) && r.Usable(p)
    ensures r.Waiting() == r.(iusing := p).Waiting() + [r.slots[p]]
  {
    hide Ring.Scan;
    var s := r.(iusing := p);
    ScanRotate(r, p);
    ScanRotate(s, p);
    ScanOthers(r, s, p);
    assert s.Cell(p) == [];
    var rest := s.Scan(r.Incr(p), |r.slots| - 1);
    assert rest + [] == rest;
  }

  /** A search that comes to its end has left at most what the last slot of the ring shows by now. */
  lemma {:induction false} FoundNothing(r: Ring, p: nat)
    requires r.Valid() && r.iusing == r.End() && p < |r.slots| && r.Passed(p) && !r.Usable(p)
    ensures p == r.Decr(r.ip) ==> r.Waiting() == []
    ensures p == r.Decr(r.Decr(r.ip)) ==> r.Waiting() == r.Cell(r.Decr(r.ip))
  {
    hide Ring.Scan;
    var n := |r.slots|;
    SkipEmpty(r, r.ip, p, n);
    var k := n - Offset(r.ip, p, n);
    ScanStep(r, p, k);
    ScanStep(r, r.Incr(p), k - 1);
    assert r.Cell(p) == [];
    if k == 1 {
      ScanStep(r, r.Incr(p), 0);
    } else if k == 2 {
      ScanStep(r, r.Incr(r.Incr(p)), 0);
      assert r.Incr(p) == r.Decr(r.ip);
      assert r.Cell(r.Incr(p)) + [] == r.Cell(r.Incr(p));
    }
  }

  // ----- the FIFO it implements -----

  /**
   A bounded drop-oldest FIFO with its whole history. Messages are numbered by commit; `held`
   is the one the consumer has in use.
   */
  datatype Fifo = Fifo(log: seq<Message>, waiting: seq<nat>, held: seq<nat>, delivered: seq<nat>, dropped: seq<nat>) {

    /** Every commit is in exactly one place, and what was overwritten is older than all that waits. */
    ghost predicate Placed() {
      && |held| <= 1 && Increasing(waiting, |log|) && Increasing(dropped, |log|)
      && Before(dropped, waiting)
      && multiset(delivered) + multiset(held) + multiset(waiting) + multiset(dropped) == multiset(Ids(|log|))
    }

    /** Messages are delivered in the order of their commits. */
    ghost predicate InOrder() {
      Increasing(delivered + held + waiting, |log|)
    }

    function Messages(ids: seq<nat>): seq<Message> {
      if ids == [] then []
      else [if ids[0] < |log| then log[ids[0]] else []] + Messages(ids[1..])
    }

    function Commit(m: Message): Fifo {
      this.(log := log + [m], waiting := waiting + [|log|])
    }

    function DropOldest(): Fifo
      requires waiting != []
    {
      this.(waiting := waiting[1..], dropped := dropped + [waiting[0]])
    }

    /** The message at place `i` is taken; a FIFO takes the one at place 0. */
    function Take(i: nat): Fifo
      requires i < |waiting|
    {
      this.(waiting := waiting[..i] + waiting[i + 1..], held := [waiting[i]])
    }

    function Deliver(): Fifo {
      this.(delivered := delivered + held, held := [])
    }
  }

  function Ids(n: nat): seq<nat> {
    seq(n, i requires 0 <= i < n => i)
  }

  ghost predicate Increasing(s: seq<nat>, bound: nat) {
    && (forall i, j :: 0 <= i < j < |s| ==> s[i] < s[j])
    && (forall i :: 0 <= i < |s| ==> s[i] < bound)
  }

  ghost predicate Before(a: seq<nat>, b: seq<nat>) {
    forall x, y :: x in a && y in b ==> x < y
  }

  lemma {:induction false} CommitKeepsPlaced(f: Fifo, m: Message)
    requires f.Placed()
    ensures f.Commit(m).Placed()
  {
    var n := |f.log|;
    assert Ids(n + 1) == Ids(n) + [n];
    InLog(f, f.dropped);
  }

  /** Taking the first of `w` out of an increasing run loses that one element and nothing else. */
  lemma {:induction false} WithoutFirst(front: seq<nat>, w: seq<nat>, bound: nat)
    requires w != [] && Increasing(front + w, bound)
    ensures Increasing(front + w[1..], bound)
  {
    var a, b, n := front + w, front + w[1..], |front|;
    forall i | 0 <= i < |b| ensures b[i] == a[if i < n then i else i + 1] {}
  }

  lemma {:induction false} DropKeepsPlaced(f: Fifo)
    requires f.Placed() && f.waiting != []
    ensures f.DropOldest().Placed()
  {
    hide Ids, Increasing, Before;
    Without(f.waiting, 0, |f.log|);
    assert f.waiting[..0] + f.waiting[1..] == f.waiting[1..];
    FirstMoves(f.dropped, f.waiting, |f.log|);
  }

  lemma {:induction false} FirstMoves(a: seq<nat>, b: seq<nat>, bound: nat)
    requires b != [] && Increasing(a, bound) && Increasing(b, bound) && Before(a, b)
    ensures Increasing(a + [b[0]], bound) && Before(a + [b[0]], b[1..])
    ensures multiset(a + [b[0]]) == multiset(a) + multiset{b[0]}
  {
    assert b[0] in b;
    forall i | 0 <= i < |a| ensures a[i] < b[0] {
      assert a[i] in a;
    }
    forall y | y in b[1..] ensures y in b && b[0] < y {}
  }

  /** An increasing run without its element at `i`. */
  lemma {:induction false} Without(w: seq<nat>, i: nat, bound: nat)
    requires i < |w| && Increasing(w, bound)
    ensures var v := w[..i] + w[i + 1..];
            && Increasing(v, bound) && multiset(w) == multiset(v) + multiset{w[i]}
            && forall x :: x in v ==> x in w
  {
    var v := w[..i] + w[i + 1..];
    assert w == w[..i] + ([w[i]] + w[i + 1..]);
    assert forall j :: 0 <= j < |v| ==> v[j] == w[if j < i then j else j + 1];
    hide Increasing;
  }

  lemma {:induction false} TakeKeepsPlaced(f: Fifo, i: nat)
    requires f.Placed() && f.held == [] && i < |f.waiting|
    ensures f.Take(i).Placed()
  {
    hide Ids, Increasing;
    Without(f.waiting, i, |f.log|);
  }

  lemma {:induction false} DeliverKeepsPlaced(f: Fifo)
    requires f.Placed()
    ensures f.Deliver().Placed()
  {
  }

  /** Numbers found in any of the places are numbers of commits. */
  lemma {:induction false} InLog(f: Fifo, ids: seq<nat>)
    requires f.Placed() && (ids == f.waiting || ids == f.held || ids == f.dropped || ids == f.delivered)
    ensures forall i :: 0 <= i < |ids| ==> ids[i] < |f.log|
  {
    forall i | 0 <= i < |ids| ensures ids[i] < |f.log| {
      assert ids[i] in multiset(ids);
      assert ids[i] in multiset(Ids(|f.log|));
      assert ids[i] in Ids(|f.log|);
    }
  }

  /** The order of deliveries survives a take exactly when it is the oldest message that is taken. */
  lemma {:induction false} TakeInOrderExactly(f: Fifo, i: nat)
    requires f.InOrder() && f.held == [] && i < |f.waiting|
    ensures f.Take(i).InOrder() <==> i == 0
  {
    hide Increasing;
    var d, w := f.delivered, f.waiting;
    var rest := w[..i] + w[i + 1..];
    assert d + f.held + w == d + w;
    if i == 0 {
      assert d + [w[0]] + rest == d + w;
    } else {
      OutOfPlace(d, w, i, |f.log|);
    }
  }

  /** An element moved in front of older ones breaks the order. */
  lemma {:induction false} OutOfPlace(d: seq<nat>, w: seq<nat>, i: nat, bound: nat)
    requires 0 < i < |w| && Increasing(d + w, bound)
    ensures !Increasing(d + [w[i]] + (w[..i] + w[i + 1..]), bound)
  {
    var a, b := d + w, d + [w[i]] + (w[..i] + w[i + 1..]);
    assert a[|d|] == w[0] && a[|d| + i] == w[i];
    assert b[|d|] == w[i] && b[|d| + 1] == w[0];
  }

  lemma {:induction false} OthersKeepOrder(f: Fifo, m: Message)
    requires f.InOrder()
    ensures f.Commit(m).InOrder() && f.Deliver().InOrder()
    ensures f.waiting != [] ==> f.DropOldest().InOrder()
  {
    var front := f.delivered + f.held;
    assert front + f.Commit(m).waiting == front + f.waiting + [|f.log|];
    assert front + [] == front;
    if f.waiting != [] {
      WithoutFirst(front, f.waiting, |f.log|);
    }
  }

  /** Every commit is exactly one of delivered, in use, waiting or overwritten. */
  lemma {:induction false} ExactlyOnePlace(f: Fifo, id: nat)
    requires f.Placed()
    ensures multiset(f.delivered)[id] + multiset(f.held)[id] + multiset(f.waiting)[id] + multiset(f.dropped)[id]
            == if id < |f.log| then 1 else 0
  {
    IdsOnce(|f.log|, id);
  }

  lemma {:induction false} IdsOnce(n: nat, id: nat)
    ensures multiset(Ids(n))[id] == if id < n then 1 else 0
    decreases n
  {
    if n > 0 {
      assert Ids(n) == Ids(n - 1) + [n - 1];
      IdsOnce(n - 1, id);
    }
  }
}
