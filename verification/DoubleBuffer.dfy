/**
 The decoder input of android/jni-01/ildec.cpp: two of the port's buffers hand frames to the
 decoder, and a frame not yet taken is replaced by a newer one.
 */
module DoubleBuffer {
  import opened Bytes

  type Frame = seq<byte>

  /** `MSK_USED` and `MSK_COPYED`, with the number and the bytes of the frame copied in. */
  datatype Slot = Slot(used: bool, copied: bool, number: int, data: Frame)

  const FREE := Slot(false, false, -1, [])

  /** The port with its history: frames sent, numbers submitted to the decoder, frames replaced. */
  datatype Port = Port(bufs: seq<Slot>, sent: seq<Frame>, submitted: seq<nat>, replaced: nat) {
    function Second(): nat { (|bufs| + 1) / 2 }

    predicate Shape() { |bufs| >= 2 }

    /** One of the two buffers that are used. */
    predicate Either(i: int) { i == 0 || i == Second() }

    function Other(i: nat): nat { if i == 0 then Second() else 0 }

    /** `EmptyThisBuffer`. */
    function Submit(i: nat): Port
      requires i < |bufs|
    {
      this.(bufs := bufs[i := bufs[i].(used := true)],
            submitted := submitted + [if bufs[i].number >= 0 then bufs[i].number else 0])
    }

    /** The error exit of `send`. */
    predicate SendFatal()
      requires Shape()
    {
      bufs[0].used && bufs[Second()].used
    }

    function SendSlot(): nat
      requires Shape()
    {
      if !bufs[0].used then 0 else Second()
    }

    /** `send` has found both buffers free, and is to submit the one it fills. */
    predicate BothFree()
      requires Shape()
    {
      !bufs[0].used && !bufs[Second()].used
    }

    /** `copydata` up to its last write; a frame that was waiting is replaced. */
    function Fill(i: nat, f: Frame): Port
      requires i < |bufs|
    {
      this.(bufs := bufs[i := bufs[i].(number := |sent|, data := f)], sent := sent + [f],
            replaced := if bufs[i].copied then replaced + 1 else replaced)
    }

    /** The last write of `copydata`. */
    function Mark(i: nat): Port
      requires i < |bufs|
    {
      this.(bufs := bufs[i := bufs[i].(copied := true)])
    }

    /** The second part of `send`, with what the first has decided. */
    function Copy(i: nat, submits: bool, f: Frame): Port
      requires i < |bufs|
    {
      var p := Fill(i, f).Mark(i);
      if submits then p.Submit(i) else p
    }

    /** All of `send`. */
    function Send(f: Frame): Port
      requires Shape() && !SendFatal()
    {
      Copy(SendSlot(), BothFree(), f)
    }

    /** The first write of `callback`. */
    function Free(i: nat): Port
      requires i < |bufs|
    {
      this.(bufs := bufs[i := bufs[i].(used := false, copied := false)])
    }

    /** `callback`: the decoder returns buffer `i`. */
    function Callback(i: nat): Port
      requires Shape() && Either(i)
    {
      var p := Free(i);
      if p.bufs[Other(i)].copied then p.Submit(Other(i)) else p
    }

    predicate Pending(i: nat)
      requires i < |bufs|
    {
      bufs[i].copied && !bufs[i].used
    }

    function PendingCount(): nat
      requires Shape()
    {
      (if Pending(0) then 1 else 0) + (if Pending(Second()) then 1 else 0)
    }

    /** The frame submitted last. */
    function Last(): int {
      if submitted == [] then -1 else submitted[|submitted| - 1]
    }

    ghost predicate SlotValid(i: nat)
      requires i < |bufs|
    {
      var b := bufs[i];
      && (b.used ==> b.copied && b.number == Last())
      && (b.copied ==> 0 <= b.number < |sent| && b.data == sent[b.number])
      && (Pending(i) ==> Last() < b.number == |sent| - 1)
    }

    /**
     What every sequence of `send` and `callback` keeps: at most one buffer is in the decoder and
     holds the frame submitted last; a frame waits only behind it, and is the newest; frames are
     submitted in order, and each one sent is submitted, waiting or replaced.
     */
    ghost predicate Valid() {
      && Shape() && SlotValid(0) && SlotValid(Second())
      && !(bufs[0].used && bufs[Second()].used)
      && (Pending(0) ==> bufs[Second()].used) && (Pending(Second()) ==> bufs[0].used)
      && Rising(submitted, |sent|)
      && |sent| == |submitted| + PendingCount() + replaced
      && (sent != [] && PendingCount() == 0 ==> Last() == |sent| - 1)
    }
  }

  ghost predicate Rising(s: seq<nat>, bound: nat) {
    && (forall i, j :: 0 <= i < j < |s| ==> s[i] < s[j])
    && (forall i :: 0 <= i < |s| ==> s[i] < bound)
  }

  lemma {:induction false} RisingAppend(s: seq<nat>, x: nat, bound: nat)
    requires Rising(s, bound)
    ensures Rising(s, bound + 1)
    ensures Rising(s + [x], bound) <==> x < bound && (s == [] || s[|s| - 1] < x)
    ensures Rising(s + [bound], bound + 1)
  {
    var t := s + [x];
    assert t[|s|] == x && (s != [] ==> t[|s| - 1] == s[|s| - 1]);
  }

  datatype Op = Send(frame: Frame) | Callback(slot: nat)

  /** The decoder returns only a buffer it was given. */
  predicate Enabled(p: Port, op: Op) {
    p.Shape() &&
    match op
    case Send(_) => true
    case Callback(i) => p.Either(i) && p.bufs[i].used
  }

  /**
   One call of `send` in one piece: the exit "both used" is out of reach, at most one buffer is in the
   decoder, a frame waits only behind it, and it is the newest of all.
   */
  lemma {:induction false} SendKeepsValid(p: Port, f: Frame)
    requires p.Valid()
    ensures !p.SendFatal() && p.Send(f).Valid()
  {
    hide Rising;
    var q := p.Send(f);
    assert q.sent[|p.sent|] == f;
    assert forall k :: 0 <= k < |p.sent| ==> q.sent[k] == p.sent[k];
    RisingAppend(p.submitted, 0, |p.sent|);
  }

  lemma {:induction false} CallbackKeepsValid(p: Port, i: nat)
    requires p.Valid() && Enabled(p, Callback(i))
    ensures p.Callback(i).Valid()
  {
    hide Rising;
    RisingAppend(p.submitted, if p.bufs[p.Other(i)].copied then p.bufs[p.Other(i)].number else 0, |p.sent|);
  }

  ghost predicate Runs(p: Port, ops: seq<Op>, q: Port)
    decreases |ops|
  {
    if ops == [] then p == q
    else
      && Enabled(p, ops[0])
      && match ops[0]
         case Send(f) => !p.SendFatal() && Runs(p.Send(f), ops[1..], q)
         case Callback(i) => Runs(p.Callback(i), ops[1..], q)
  }

  /**
   Over every run: submitted frames are a strictly increasing part of those sent, every frame is
   submitted, waiting or replaced, and the newest is never the one replaced.
   */
  lemma {:induction false} NewestNeverLost(p: Port, ops: seq<Op>, q: Port)
    requires p.Valid() && Runs(p, ops, q)
    ensures q.Valid() && !q.SendFatal()
    ensures Rising(q.submitted, |q.sent|)
    ensures |q.sent| == |q.submitted| + q.PendingCount() + q.replaced && q.PendingCount() <= 1
    ensures q.sent != [] ==> var newest := |q.sent| - 1;
              || (q.submitted != [] && q.submitted[|q.submitted| - 1] == newest)
              || (exists i :: q.Either(i) && q.Pending(i) && q.bufs[i].number == newest)
    decreases |ops|
  {
    if ops != [] {
      match ops[0]
      case Send(f) =>
        SendKeepsValid(p, f);
        NewestNeverLost(p.Send(f), ops[1..], q);
      case Callback(i) =>
        CallbackKeepsValid(p, i);
        NewestNeverLost(p.Callback(i), ops[1..], q);
    }
  }

  // ----- a send whose tests callbacks fall between -----

  /** The decoder returns the buffers `ks`, one after another. */
  ghost predicate Returns(p: Port, ks: seq<nat>, q: Port)
    decreases |ks|
  {
    if ks == [] then p == q
    else Enabled(p, Callback(ks[0])) && Returns(p.Callback(ks[0]), ks[1..], q)
  }

  /**
   How many callbacks can still come without another `send`: for the buffer in the decoder, and
   for the one waiting.
   */
  function Load(p: Port): nat
    requires p.Shape()
  {
    if p.BothFree() then 0 else 1 + p.PendingCount()
  }

  /** Callbacks alternate between the buffers until both are free. */
  lemma {:induction false} ReturnsAlternate(p: Port, ks: seq<nat>, q: Port)
    requires p.Valid() && Returns(p, ks, q)
    ensures q.Valid() && |q.bufs| == |p.bufs| && q.sent == p.sent
    ensures Load(q) == Load(p) - |ks|
    ensures Load(q) > 0 ==> (q.bufs[0].used <==> (p.bufs[0].used <==> |ks| % 2 == 0))
    decreases |ks|
  {
    hide Port.Valid, Port.Callback;
    HasShape(p);
    if ks != [] {
      CallbackKeepsValid(p, ks[0]);
      CallbackUnloads(p, ks[0]);
      ReturnsAlternate(p.Callback(ks[0]), ks[1..], q);
    }
  }

  lemma {:induction false} HasShape(p: Port)
    requires p.Valid()
    ensures p.Shape() && !p.SendFatal() && p.PendingCount() <= 1 && (p.BothFree() ==> p.PendingCount() == 0)
    ensures p.Pending(0) ==> p.bufs[p.Second()].used
    ensures p.Pending(p.Second()) ==> p.bufs[0].used
  {
  }

  lemma {:induction false} CallbackUnloads(p: Port, k: nat)
    requires p.Valid() && Enabled(p, Callback(k))
    ensures var q := p.Callback(k);
            && |q.bufs| == |p.bufs| && q.sent == p.sent && Load(q) == Load(p) - 1
            && (Load(q) > 0 ==> (q.bufs[0].used <==> !p.bufs[0].used))
  {
  }

  /** The ports as `send` finds them at its tests, where it makes them, and at its copy. */
  datatype Seen = Seen(first: Port, second: Port, third: Port, fourth: Port, copy: Port)

  /** The buffers returned before the second, third and fourth test, and before the copy. */
  datatype Between = Between(second: seq<nat>, third: seq<nat>, fourth: seq<nat>, copy: seq<nat>) {
    function Count(): nat { |second| + |third| + |fourth| + |copy| }
  }

  ghost predicate Sees(v: Seen, b: Between) {
    && Returns(v.first, b.second, v.second) && Returns(v.second, b.third, v.third)
    && Returns(v.third, b.fourth, v.fourth) && Returns(v.fourth, b.copy, v.copy)
  }

  datatype Decision = Fills(slot: nat, submits: bool) | BothUsed

  /** What the four tests decide; the second is made only when the first finds a free buffer, and so on. */
  function Decide(v: Seen): Decision
    requires v.first.Shape() && v.second.Shape() && v.third.Shape() && v.fourth.Shape()
  {
    if !v.first.bufs[0].used && !v.second.bufs[v.second.Second()].used then Fills(0, true)
    else if !v.third.bufs[0].used then Fills(0, false)
    else if !v.fourth.bufs[v.fourth.Second()].used then Fills(v.fourth.Second(), false)
    else BothUsed
  }

  /**
   Whatever the tests have decided: the copy keeps what is promised exactly when, as it is made,
   a buffer to be submitted finds none in the decoder, and another one finds itself out of it and
   the other one in it.
   */
  lemma {:induction false} CopyKeepsExactly(p: Port, i: nat, submits: bool, f: Frame)
    requires p.Valid() && p.Either(i)
    ensures p.Copy(i, submits, f).Valid()
            <==> if submits then p.BothFree() else !p.bufs[i].used && p.bufs[p.Other(i)].used
  {
    hide Rising;
    var r := p.Copy(i, submits, f);
    assert r.sent[|p.sent|] == f && forall k :: 0 <= k < |p.sent| ==> r.sent[k] == p.sent[k];
    RisingAppend(p.submitted, 0, |p.sent|);
  }

  lemma {:induction false} SeenLoads(v: Seen, b: Between)
    requires v.first.Valid() && Sees(v, b)
    ensures v.second.Valid() && v.third.Valid() && v.fourth.Valid() && v.copy.Valid()
    ensures |v.second.bufs| == |v.third.bufs| == |v.fourth.bufs| == |v.copy.bufs| == |v.first.bufs|
    ensures Load(v.second) == Load(v.first) - |b.second|
    ensures Load(v.third) == Load(v.second) - |b.third|
    ensures Load(v.fourth) == Load(v.third) - |b.fourth|
    ensures Load(v.copy) == Load(v.fourth) - |b.copy|
    ensures Load(v.second) > 0 ==> (v.second.bufs[0].used <==> (v.first.bufs[0].used <==> |b.second| % 2 == 0))
    ensures Load(v.third) > 0 ==> (v.third.bufs[0].used <==> (v.second.bufs[0].used <==> |b.third| % 2 == 0))
    ensures Load(v.fourth) > 0 ==> (v.fourth.bufs[0].used <==> (v.third.bufs[0].used <==> |b.fourth| % 2 == 0))
    ensures Load(v.copy) > 0 ==> (v.copy.bufs[0].used <==> (v.fourth.bufs[0].used <==> |b.copy| % 2 == 0))
  {
    hide Port.Valid, Port.Callback, Load, Returns;
    HasShape(v.first);
    ReturnsAlternate(v.first, b.second, v.second);
    HasShape(v.second);
    ReturnsAlternate(v.second, b.third, v.third);
    HasShape(v.third);
    ReturnsAlternate(v.third, b.fourth, v.fourth);
    HasShape(v.fourth);
    ReturnsAlternate(v.fourth, b.copy, v.copy);
  }

  /** What `Load` says of a buffer. */
  lemma {:induction false} LoadIs(p: Port)
    requires p.Valid()
    ensures Load(p) <= 2 && (Load(p) == 0 <==> p.BothFree())
    ensures Load(p) > 0 ==> (p.bufs[0].used <==> !p.bufs[p.Second()].used)
    ensures Load(p) == 2 <==> (if p.bufs[0].used then p.Pending(p.Second()) else p.Pending(0))
  {
  }

  /**
   The exit "both used" is reached exactly when the first buffer is in the decoder and the second
   one waits, and a single callback falls between the third and the fourth test.
   */
  lemma {:induction false} ExitExactly(v: Seen, b: Between)
    requires v.first.Valid() && Sees(v, b)
    ensures v.first.Shape() && v.second.Shape() && v.third.Shape() && v.fourth.Shape()
    ensures Decide(v).BothUsed?
            <==> && v.first.bufs[0].used && v.first.Pending(v.first.Second())
                 && b.second == [] && b.third == [] && |b.fourth| == 1
  {
    hide Port.Valid, Load, Sees;
    SeenLoads(v, b);
    HasShape(v.first);
    LoadIs(v.first);
    HasShape(v.second);
    LoadIs(v.second);
    HasShape(v.third);
    LoadIs(v.third);
    HasShape(v.fourth);
    LoadIs(v.fourth);
  }

  /**
   The placements of callbacks that do no harm. Without any there is none. With the first buffer
   in the decoder: it is returned before the third test, and the frame that waited is in the
   decoder from then on. With the second one in the decoder: both are free by the second test, or
   by the copy if the second has been returned before that test; or only the second has been
   returned, between the second and the third test, with a frame waiting.
   */
  predicate Harmless(p: Port, b: Between)
    requires p.Shape()
  {
    var n := b.Count();
    || n == 0
    || (n == 1 && p.bufs[0].used && p.Pending(p.Second()) && |b.second| + |b.third| == 1)
    || (n == 1 && !p.bufs[0].used && |b.second| == 1 && !p.Pending(0))
    || (n == 2 && !p.bufs[0].used && |b.second| >= 1)
    || (n == 1 && !p.bufs[0].used && |b.third| == 1 && p.Pending(0))
  }

  /** `send` takes no lock: what is promised is kept exactly by the harmless placements. */
  lemma {:induction false} SendInPartsExactly(v: Seen, b: Between, f: Frame)
    requires v.first.Valid() && Sees(v, b)
    ensures v.first.Shape() && v.second.Shape() && v.third.Shape() && v.fourth.Shape() && v.copy.Shape()
    ensures var d := Decide(v);
            if d.BothUsed? then !Harmless(v.first, b)
            else d.slot < |v.copy.bufs| && (v.copy.Copy(d.slot, d.submits, f).Valid() <==> Harmless(v.first, b))
  {
    hide Port.Valid, Port.Copy, Load, Sees;
    SeenLoads(v, b);
    HasShape(v.first);
    LoadIs(v.first);
    HasShape(v.second);
    LoadIs(v.second);
    HasShape(v.third);
    LoadIs(v.third);
    HasShape(v.fourth);
    LoadIs(v.fourth);
    HasShape(v.copy);
    LoadIs(v.copy);
    var d := Decide(v);
    if d.Fills? {
      CopyKeepsExactly(v.copy, d.slot, d.submits, f);
    }
  }

  /** The two buffers are the first one and the one in the middle. */
  lemma {:induction false} TwoBuffers(p: Port)
    requires p.Shape()
    ensures 0 < p.Second() < |p.bufs| && |p.bufs| <= 2 * p.Second() <= |p.bufs| + 1
    ensures p.Other(0) == p.Second() && p.Other(p.Second()) == 0
  {
  }

  lemma {:induction false} FreshPortValid(n: nat)
    requires n >= 2
    ensures Port(seq(n, _ => FREE), [], [], 0).Valid()
  {
  }

  // ----- the object -----

  /** The flags of a `BufferEx`, and what has been copied into its OMX buffer. */
  datatype BufferEx = BufferEx(used: bool, copied: bool, data: Frame)

  function Slots(bs: seq<BufferEx>, numbers: seq<int>): (ss: seq<Slot>)
    requires |bs| == |numbers|
    ensures |ss| == |bs|
  {
    seq(|bs|, i requires 0 <= i < |bs| => Slot(bs[i].used, bs[i].copied, numbers[i], bs[i].data))
  }

  lemma {:induction false} SlotsUpdate(bs: seq<BufferEx>, numbers: seq<int>, i: nat, b: BufferEx, n: int)
    requires |bs| == |numbers| && i < |bs|
    ensures Slots(bs[i := b], numbers[i := n]) == Slots(bs, numbers)[i := Slot(b.used, b.copied, n, b.data)]
    ensures Slots(bs[i := b], numbers) == Slots(bs, numbers)[i := Slot(b.used, b.copied, numbers[i], b.data)]
  {
  }

  class InputPort {
    const bufs: array<BufferEx>
    var nReplaced: nat
    var count: nat
    // the history of the port
    ghost var numbers: seq<int>
    ghost var sent: seq<Frame>
    ghost var submitted: seq<nat>
    ghost var replaced: nat

    ghost predicate Linked()
      reads this
    {
      |numbers| == bufs.Length
    }

    ghost function State(): (p: Port)
      requires Linked()
      reads this, bufs
      ensures |p.bufs| == bufs.Length
    {
      Port(Slots(bufs[..], numbers), sent, submitted, replaced)
    }

    constructor (n: nat)
      requires n >= 2
      ensures fresh(bufs) && Linked() && State() == Port(seq(n, _ => FREE), [], [], 0) && State().Valid()
    {
      bufs, nReplaced, count := new BufferEx[n](_ => BufferEx(false, false, [])), 0, 0;
      numbers := seq(n, _ => -1);
      sent, submitted, replaced := [], [], 0;
      new;
      assert Slots(bufs[..], numbers) == seq(n, _ => FREE);
      FreshPortValid(n);
    }

    /** Writes buffer `i`, which holds the frame numbered `n` from then on. */
    method Set(i: nat, b: BufferEx, ghost n: int)
      requires Linked() && i < bufs.Length
      modifies this`numbers, bufs
      ensures Linked() && State() == old(State()).(bufs := old(State()).bufs[i := Slot(b.used, b.copied, n, b.data)])
      ensures bufs[i] == b && forall k :: 0 <= k < bufs.Length && k != i ==> bufs[k] == old(bufs[k])
    {
      SlotsUpdate(bufs[..], numbers, i, b, n);
      ghost var was := bufs[..];
      bufs[i] := b;
      assert bufs[..] == was[i := b];
      numbers := numbers[i := n];
    }

    method EmptyThisBuffer(i: nat)
      requires Linked() && i < bufs.Length
      modifies this`nReplaced, this`submitted, this`numbers, bufs
      ensures Linked() && State() == old(State()).Submit(i) && nReplaced == 0
    {
      submitted := submitted + [if numbers[i] >= 0 then numbers[i] else 0];
      Set(i, bufs[i].(used := true), numbers[i]);
      nReplaced := 0;
    }

    method Send(data: Frame)
      requires Linked() && State().Shape() && !State().SendFatal()
      modifies this`nReplaced, this`submitted, this`sent, this`replaced, this`numbers, bufs
      ensures Linked() && State() == old(State()).Send(data)
      ensures nReplaced == if old(State()).BothFree() then 0
                           else old(nReplaced) + if old(State()).bufs[old(State()).SendSlot()].copied then 1 else 0
    {
      var i, j, doempty := 0, (bufs.Length + 1) / 2, false;
      if !bufs[i].used && !bufs[j].used {
        doempty := true;
      } else if !bufs[i].used {
      } else if !bufs[j].used {
        i := j;
      } else {
        assert false;  // "both used"
      }
      if bufs[i].copied {
        nReplaced, replaced := nReplaced + 1, replaced + 1;
      }
      Set(i, bufs[i].(copied := true, data := data), |sent|);
      sent := sent + [data];
      if doempty {
        EmptyThisBuffer(i);
      }
    }

    method Callback(i: nat)
      requires Linked() && State().Shape() && State().Either(i)
      modifies this`nReplaced, this`submitted, this`count, this`numbers, bufs
      ensures Linked() && State() == old(State()).Callback(i) && count == old(count) + 1
      ensures nReplaced == if old(State()).bufs[old(State()).Other(i)].copied then 0 else old(nReplaced)
    {
      count := count + 1;
      Set(i, bufs[i].(used := false, copied := false), numbers[i]);
      var j := if i == 0 then (bufs.Length + 1) / 2 else 0;
      if bufs[j].copied {
        EmptyThisBuffer(j);
      }
    }
  }
}
