/**
 Runs of the decoder input with `send` and `callback` on their own threads. The mutex keeps two
 callbacks apart, but `send` does not take it; so each test and each write of a buffer's flags is
 a step of its own.
 */
module DoubleBufferRuns {
  import opened DoubleBuffer

  /**
   Where `send` stands: before one of its four tests; before filling buffer `i`, to submit it
   itself or not; between filling and marking it as copied, where `shown` says that it was marked
   before; before submitting it. `Exited` is the error exit.
   */
  datatype Sender =
    | Resting
    | Looking(test: nat)
    | Chosen(i: nat, submits: bool)
    | Filled(i: nat, submits: bool, shown: bool)
    | Marked(i: nat)
    | Exited

  /** Where `callback` stands: before its test of the other buffer, and before submitting it. */
  datatype Returner = Quiet | Returned(i: nat) | Resubmitting(j: nat)

  datatype Op = Begin | Look | Fill(frame: Frame) | Mark | Submit | Return(slot: nat) | Check | Resubmit

  datatype Sys = Sys(port: Port, send: Sender, back: Returner) {

    predicate Enabled(op: Op) {
      && port.Shape()
      && match op
         case Begin => send.Resting?
         case Look => send.Looking?
         case Fill(_) => send.Chosen? && port.Either(send.i)
         case Mark => send.Filled? && port.Either(send.i)
         case Submit => send.Marked? && port.Either(send.i)
         case Return(i) => back.Quiet? && port.Either(i) && port.bufs[i].used
         case Check => back.Returned? && port.Either(back.i)
         case Resubmit => back.Resubmitting? && port.Either(back.j)
    }

    function Looked(): Sender
      requires port.Shape() && send.Looking?
    {
      var a, b := port.bufs[0].used, port.bufs[port.Second()].used;
      match send.test
      case 1 => Looking(if a then 3 else 2)
      case 2 => if b then Looking(3) else Chosen(0, true)
      case 3 => if a then Looking(4) else Chosen(0, false)
      case _ => if b then Exited else Chosen(port.Second(), false)
    }

    function Next(op: Op): Sys
      requires Enabled(op)
    {
      match op
      case Begin => this.(send := Looking(1))
      case Look => this.(send := Looked())
      case Fill(f) =>
        this.(port := port.Fill(send.i, f), send := Filled(send.i, send.submits, port.bufs[send.i].copied))
      case Mark => this.(port := port.Mark(send.i), send := if send.submits then Marked(send.i) else Resting)
      case Submit => this.(port := port.Submit(send.i), send := Resting)
      case Return(i) => this.(port := port.Free(i), back := Returned(i))
      case Check =>
        var j := port.Other(back.i);
        this.(back := if port.bufs[j].copied then Resubmitting(j) else Quiet)
      case Resubmit => this.(port := port.Submit(back.j), back := Quiet)
    }

    /**
     The steps that do harm: the exit; filling a buffer that is in the decoder; marking a frame
     that has been delivered already, or one that nobody is going to submit; submitting while a
     buffer is in the decoder, while an older frame waits, or what has been delivered already.
     */
    predicate Harms(op: Op)
      requires Enabled(op)
    {
      match op
      case Look => Looked().Exited?
      case Fill(_) => port.bufs[send.i].used
      case Mark =>
        var i, j := send.i, port.Other(send.i);
        || (send.shown && !port.bufs[i].copied)
        || (!send.submits && !port.bufs[i].used && !port.bufs[j].used && back != Returned(j) && back != Resubmitting(i))
      case Submit => !port.BothFree() || !port.bufs[send.i].copied || port.bufs[port.Other(send.i)].copied
      case Resubmit => !port.BothFree()
      case _ => false
    }

    /** Somebody is going to submit the frame waiting in `k`. */
    predicate Coming(k: nat)
      requires port.Shape() && port.Either(k)
    {
      var j := port.Other(k);
      port.bufs[j].used || back == Returned(j) || back == Resubmitting(k) || send == Marked(k)
    }

    /** The newest frame is filled in and not yet marked. */
    function InHand(): nat {
      if send.Filled? && !send.shown then 1 else 0
    }

    ghost predicate SlotGood(k: nat)
      requires port.Shape() && port.Either(k)
    {
      var b := port.bufs[k];
      && (b.used ==> b.copied && b.number == port.Last())
      && (b.copied ==> 0 <= b.number < |port.sent| && b.data == port.sent[b.number])
      && (port.Pending(k) ==> Coming(k) && b.number > port.Last())
    }

    ghost predicate SendGood()
      requires port.Shape()
    {
      var newest := |port.sent| - 1;
      match send
      case Resting => true
      case Looking(n) => 1 <= n <= 4
      case Chosen(i, _) => port.Either(i)
      case Filled(i, _, shown) =>
        && port.Either(i) && newest >= 0 && port.bufs[i].number == newest && port.bufs[i].data == port.sent[newest]
        && (port.bufs[port.Other(i)].copied ==> port.bufs[port.Other(i)].number != newest)
        && (if shown then !port.bufs[i].copied ==> port.Last() == newest
            else !port.bufs[i].copied && port.Last() < newest)
      case Marked(i) =>
        && port.Either(i) && newest >= 0 && port.bufs[i].number == newest
        && (!port.bufs[i].copied ==> port.Last() == newest)
      case Exited => false
    }

    ghost predicate BackGood()
      requires port.Shape()
    {
      match back
      case Quiet => true
      case Returned(i) => port.Either(i)
      case Resubmitting(j) => port.Either(j) && port.bufs[j].copied
    }

    /**
     At most one buffer is in the decoder and holds the frame submitted last; a frame waits only
     for somebody to submit it and is newer than all submitted; frames are submitted in order, and
     each one sent is submitted, waiting, replaced or in hand, the newest never being replaced.
     */
    ghost predicate Good() {
      && port.Shape() && SendGood() && BackGood() && !port.SendFatal()
      && SlotGood(0) && SlotGood(port.Second())
      && (port.bufs[0].copied && port.bufs[port.Second()].copied ==>
            port.bufs[0].number != port.bufs[port.Second()].number)
      && Rising(port.submitted, |port.sent|)
      && |port.sent| == |port.submitted| + port.PendingCount() + port.replaced + InHand()
      && (port.sent != [] && InHand() == 0 ==> NewestThere())
    }

    ghost predicate NewestThere()
      requires port.Shape()
    {
      var n := |port.sent| - 1;
      || port.Last() == n
      || (port.Pending(0) && port.bufs[0].number == n)
      || (port.Pending(port.Second()) && port.bufs[port.Second()].number == n)
    }
  }

  lemma {:induction false} LookExactly(s: Sys, op: Op)
    requires s.Good() && s.Enabled(op) && (op.Begin? || op.Look?)
    ensures s.Next(op).Good() <==> !s.Harms(op)
  {
    hide Rising;
  }

  lemma {:induction false} FillExactly(s: Sys, op: Op)
    requires s.Good() && s.Enabled(op) && op.Fill?
    ensures s.Next(op).Good() <==> !s.Harms(op)
  {
    hide Rising;
    RisingAppend(s.port.submitted, 0, |s.port.sent|);
    var t := s.Next(op);
    assert t.port.sent[|s.port.sent|] == op.frame;
    assert forall k :: 0 <= k < |s.port.sent| ==> t.port.sent[k] == s.port.sent[k];
    if s.Harms(op) {
      assert !t.SlotGood(s.send.i);
    }
  }

  lemma {:induction false} MarkExactly(s: Sys, op: Op)
    requires s.Good() && s.Enabled(op) && op.Mark?
    ensures s.Next(op).Good() <==> !s.Harms(op)
  {
    hide Rising;
    var t := s.Next(op);
    if s.Harms(op) {
      assert !t.SlotGood(s.send.i);
    }
  }

  lemma {:induction false} SubmitExactly(s: Sys, op: Op)
    requires s.Good() && s.Enabled(op) && op.Submit?
    ensures s.Next(op).Good() <==> !s.Harms(op)
  {
    hide Rising;
    var i := s.send.i;
    RisingAppend(s.port.submitted, s.port.bufs[i].number, |s.port.sent|);
    var t := s.Next(op);
    assert t.port.Last() == s.port.bufs[i].number;
  }

  lemma {:induction false} ResubmitExactly(s: Sys, op: Op)
    requires s.Good() && s.Enabled(op) && op.Resubmit?
    ensures s.Next(op).Good() <==> !s.Harms(op)
  {
    hide Rising;
    var i := s.back.j;
    RisingAppend(s.port.submitted, s.port.bufs[i].number, |s.port.sent|);
    var t := s.Next(op);
    assert t.port.Last() == s.port.bufs[i].number;
  }

  lemma {:induction false} ReturnExactly(s: Sys, op: Op)
    requires s.Good() && s.Enabled(op) && op.Return?
    ensures s.Next(op).Good() <==> !s.Harms(op)
  {
    hide Rising;
  }

  lemma {:induction false} CheckExactly(s: Sys, op: Op)
    requires s.Good() && s.Enabled(op) && op.Check?
    ensures s.Next(op).Good() <==> !s.Harms(op)
  {
    hide Rising;
  }

  /** Every other step keeps what is promised, and a harmful one breaks it. */
  lemma {:induction false} StepExactly(s: Sys, op: Op)
    requires s.Good() && s.Enabled(op)
    ensures s.Next(op).Good() <==> !s.Harms(op)
  {
    hide Sys.Good, Sys.Next, Sys.Harms;
    match op
    case Begin | Look => LookExactly(s, op);
    case Fill(_) => FillExactly(s, op);
    case Mark => MarkExactly(s, op);
    case Submit => SubmitExactly(s, op);
    case Resubmit => ResubmitExactly(s, op);
    case Return(_) => ReturnExactly(s, op);
    case Check => CheckExactly(s, op);
  }

  /** Between calls this is what `send` and `callback` in one piece keep. */
  lemma {:induction false} GoodAtRest(s: Sys)
    requires s.send.Resting? && s.back.Quiet?
    ensures s.Good() <==> s.port.Valid()
  {
    var p := s.port;
    if p.Shape() {
      assert p.Either(0) && p.Either(p.Second());
    }
  }

  // ----- runs -----

  ghost predicate Runs(s: Sys, ops: seq<Op>, t: Sys)
    decreases |ops|
  {
    if ops == [] then s == t
    else s.Enabled(ops[0]) && Runs(s.Next(ops[0]), ops[1..], t)
  }

  ghost predicate GoodThroughout(s: Sys, ops: seq<Op>)
    decreases |ops|
  {
    s.Good() && (ops != [] && s.Enabled(ops[0]) ==> GoodThroughout(s.Next(ops[0]), ops[1..]))
  }

  ghost predicate NeverHarms(s: Sys, ops: seq<Op>)
    decreases |ops|
  {
    ops != [] && s.Enabled(ops[0]) ==> !s.Harms(ops[0]) && NeverHarms(s.Next(ops[0]), ops[1..])
  }

  /** Over every interleaving of `send` and `callback`: all is kept throughout if and only if no step is harmful. */
  lemma {:induction false} GoodExactly(s: Sys, ops: seq<Op>, t: Sys)
    requires s.Good() && Runs(s, ops, t)
    ensures GoodThroughout(s, ops) <==> NeverHarms(s, ops)
    ensures NeverHarms(s, ops) ==> t.Good()
    decreases |ops|
  {
    hide Sys.Good, Sys.Next, Sys.Harms, Sys.Enabled;
    if ops != [] {
      StepExactly(s, ops[0]);
      if s.Next(ops[0]).Good() {
        GoodExactly(s.Next(ops[0]), ops[1..], t);
      }
    }
  }

  lemma {:induction false} RunsStep(s: Sys, op: Op, ops: seq<Op>, t: Sys)
    requires s.Enabled(op)
    ensures Runs(s.Next(op), ops, t) ==> Runs(s, [op] + ops, t)
  {
    hide Sys.Next;
    assert ([op] + ops)[1..] == ops;
  }

  ghost predicate Reached(s: Sys, t: Sys) {
    exists ops :: Runs(s, ops, t)
  }

  lemma {:induction false} ReachedOn(s: Sys, t: Sys, op: Op)
    requires Reached(s, t) && t.Enabled(op)
    ensures Reached(s, t.Next(op))
  {
    var ops :| Runs(s, ops, t);
    RunsOn(s, ops, t, op);
  }

  lemma {:induction false} RunsOn(s: Sys, ops: seq<Op>, t: Sys, op: Op)
    requires Runs(s, ops, t) && t.Enabled(op)
    ensures Runs(s, ops + [op], t.Next(op))
    decreases |ops|
  {
    hide Sys.Next, Sys.Enabled;
    if ops == [] {
      RunsStart(t.Next(op));
      RunsStep(s, op, [], t.Next(op));
      assert [op] + [] == [] + [op];
    } else {
      RunsOn(s.Next(ops[0]), ops[1..], t, op);
      RunsStep(s, ops[0], ops[1..] + [op], t.Next(op));
      assert [ops[0]] + (ops[1..] + [op]) == ops + [op];
    }
  }

  lemma {:induction false} ReachedStart(s: Sys)
    ensures Reached(s, s)
  {
    RunsStart(s);
  }

  /** Undisturbed, the steps of `send` are the call in one piece. */
  lemma {:induction false} SendAlone(p: Port, f: Frame)
    requires p.Shape() && !p.SendFatal()
    ensures Reached(Sys(p, Resting, Quiet), Sys(p.Send(f), Resting, Quiet))
  {
    hide Reached;
    var s := Sys(p, Resting, Quiet);
    ReachedStart(s);
    ReachedOn(s, s, Begin);
    var t := LooksAlone(s, s.Next(Begin));
    ReachedOn(s, t, Fill(f));
    t := t.Next(Fill(f));
    ReachedOn(s, t, Mark);
    t := t.Next(Mark);
    if p.BothFree() {
      ReachedOn(s, t, Submit);
    }
  }

  lemma {:induction false} LooksAlone(s: Sys, t: Sys) returns (u: Sys)
    requires Reached(s, t) && t.port.Shape() && !t.port.SendFatal() && t.send == Looking(1)
    ensures Reached(s, u) && u == t.(send := Chosen(t.port.SendSlot(), t.port.BothFree()))
  {
    hide Reached;
    ReachedOn(s, t, Look);
    u := t.Next(Look);
    ReachedOn(s, u, Look);
    u := u.Next(Look);
    if u.send.Looking? {
      ReachedOn(s, u, Look);
      u := u.Next(Look);
    }
  }

  /** And so are those of `callback`. */
  lemma {:induction false} CallbackAlone(p: Port, i: nat)
    requires p.Shape() && p.Either(i) && p.bufs[i].used
    ensures Reached(Sys(p, Resting, Quiet), Sys(p.Callback(i), Resting, Quiet))
  {
    hide Reached;
    var s := Sys(p, Resting, Quiet);
    ReachedStart(s);
    ReachedOn(s, s, Return(i));
    var t := s.Next(Return(i));
    ReachedOn(s, t, Check);
    t := t.Next(Check);
    if t.back.Resubmitting? {
      ReachedOn(s, t, Resubmit);
    }
  }

  /** Two calls of `send` on a fresh port leave one frame in the decoder and one waiting. */
  lemma {:induction false} OneWaits(n: nat, f: Frame, g: Frame) returns (p: Port)
    requires n >= 2
    ensures p == Port(seq(n, _ => FREE), [], [], 0).Send(f).Send(g)
    ensures p.Valid() && p.bufs[0].used && p.Pending(p.Second())
  {
    var empty := Port(seq(n, _ => FREE), [], [], 0);
    FreshPortValid(n);
    SendKeepsValid(empty, f);
    SendKeepsValid(empty.Send(f), g);
    p := empty.Send(f).Send(g);
  }

  /** From there a third call ends the program, if the decoder returns its buffer between the last two tests. */
  lemma {:induction false} ExitReached(p: Port) returns (ops: seq<Op>, t: Sys)
    requires p.Valid() && p.bufs[0].used && p.Pending(p.Second())
    ensures ops == [Begin, Look, Look, Return(0), Check, Resubmit, Look]
    ensures Runs(Sys(p, Resting, Quiet), ops, t) && t.send.Exited?
  {
    hide Runs;
    var s0 := Sys(p, Resting, Quiet);
    var s1 := s0.Next(Begin);
    var s2 := s1.Next(Look);
    var s3 := s2.Next(Look);
    var s4 := s3.Next(Return(0));
    var s5 := s4.Next(Check);
    var s6 := s5.Next(Resubmit);
    t := s6.Next(Look);
    RunsStart(t);
    RunsStep(s6, Look, [], t);
    RunsStep(s5, Resubmit, [Look] + [], t);
    var last := [Resubmit] + ([Look] + []);
    RunsStep(s4, Check, last, t);
    RunsStep(s3, Return(0), [Check] + last, t);
    RunsStep(s2, Look, [Return(0)] + ([Check] + last), t);
    RunsStep(s1, Look, [Look] + ([Return(0)] + ([Check] + last)), t);
    RunsStep(s0, Begin, [Look] + ([Look] + ([Return(0)] + ([Check] + last))), t);
    ops := [Begin] + ([Look] + ([Look] + ([Return(0)] + ([Check] + last))));
  }

  lemma {:induction false} RunsStart(t: Sys)
    ensures Runs(t, [], t)
  {
  }

  // ----- under the mutex -----

  /** `send` and `callback` run one at a time, as they would if `send` took the mutex, too. */
  ghost predicate Locked(s: Sys, ops: seq<Op>)
    decreases |ops|
  {
    ops != [] && s.Enabled(ops[0]) ==>
      && (ops[0].Begin? ==> s.back.Quiet?) && (ops[0].Return? ==> s.send.Resting?)
      && Locked(s.Next(ops[0]), ops[1..])
  }

  /** What the tests have seen is still so. */
  predicate Settled(s: Sys)
    requires s.port.Shape()
  {
    var p := s.port;
    var a, b := p.bufs[0].used, p.bufs[p.Second()].used;
    && (s.send.Resting? || s.back.Quiet?) && (s.back.Quiet? || p.BothFree())
    && match s.send
       case Resting => true
       case Looking(n) => (n == 2 ==> !a) && (n == 3 ==> a || b) && (n == 4 ==> a)
       case Chosen(i, submits) =>
         p.Either(i) && (if submits then p.BothFree() else !p.bufs[i].used && p.bufs[p.Other(i)].used)
       case Filled(i, submits, shown) =>
         && p.Either(i) && (shown ==> p.bufs[i].copied)
         && (if submits then p.BothFree() else !p.bufs[i].used && p.bufs[p.Other(i)].used)
       case Marked(i) => p.Either(i) && p.BothFree() && p.bufs[i].copied
       case Exited => false
  }

  lemma {:induction false} SettledStep(s: Sys, op: Op)
    requires s.Good() && Settled(s) && s.Enabled(op)
    requires (op.Begin? ==> s.back.Quiet?) && (op.Return? ==> s.send.Resting?)
    ensures !s.Harms(op) && s.Next(op).port.Shape() && Settled(s.Next(op))
  {
    hide Rising;
  }

  /** If `send` took the mutex, no step could do harm. */
  lemma {:induction false} LockedNeverHarms(s: Sys, ops: seq<Op>, t: Sys)
    requires s.Good() && s.port.Shape() && Settled(s) && Runs(s, ops, t) && Locked(s, ops)
    ensures NeverHarms(s, ops)
    decreases |ops|
  {
    hide Sys.Good, Sys.Next, Sys.Harms, Sys.Enabled, Settled;
    if ops != [] {
      SettledStep(s, ops[0]);
      StepExactly(s, ops[0]);
      LockedNeverHarms(s.Next(ops[0]), ops[1..], t);
    }
  }

  /** So under the mutex every run from a fresh port keeps all that is promised, throughout. */
  lemma {:induction false} LockedKeepsAll(n: nat, ops: seq<Op>, t: Sys)
    requires n >= 2
    requires var s := Sys(Port(seq(n, _ => FREE), [], [], 0), Resting, Quiet); Runs(s, ops, t) && Locked(s, ops)
    ensures GoodThroughout(Sys(Port(seq(n, _ => FREE), [], [], 0), Resting, Quiet), ops) && t.Good()
  {
    var s := Sys(Port(seq(n, _ => FREE), [], [], 0), Resting, Quiet);
    FreshPortValid(n);
    GoodAtRest(s);
    LockedNeverHarms(s, ops, t);
    GoodExactly(s, ops, t);
  }
}
