/**
 The datagram path of network/epoll/epoll.hpp: a message is cut into numbered fragments with a
 last flag, and put together again by a receiver that knows only the index it expects next.
 */
module Fragmentation {
  import opened Bytes
  import opened Buffer
  import opened Framing
  import opened Sequences

  const HEAD: nat := 4
  const PART: nat := 1456 - HEAD
  const LAST := 0x8000
  const KEEPALIVE: seq<byte> := [255, 255, 255, 255]
  /** The most fragments a message may have: one more would make the last header the keepalive. */
  const MOST := 0x7fff

  /** A fragment as the receiver sees it: the first header word and the payload. */
  datatype Fragment = Fragment(head: int, part: seq<byte>)

  /** The header word: the 16-bit index, with the top bit set on the final fragment. */
  function Head(idx: int, last: bool): (h: int)
    requires 0 <= idx < 0x1_0000
    ensures 0 <= h < 0x1_0000
  {
    if last && idx < LAST then idx + LAST else idx
  }

  /** The fragments of what is left of a message, the first of them numbered `idx`. */
  function Fragments(s: seq<byte>, idx: int): (fs: seq<Fragment>)
    requires 0 <= idx < 0x1_0000
    decreases |s|
  {
    if |s| <= PART then [Fragment(Head(idx, true), s)]
    else [Fragment(Head(idx, false), s[..PART])] + Fragments(s[PART..], (idx + 1) % 0x1_0000)
  }

  // ----- the receiver -----

  /** What stays in the receive buffer once a delivery has been processed. */
  type Sink = seq<byte> -> seq<byte>

  datatype Rx = Rx(want: int, buf: seq<byte>, open: bool)
  datatype Step = Step(rx: Rx, got: seq<seq<byte>>)

  const FRESH := Rx(0, [], true)

  /** Counts a fragment that continues the message, and delivers the buffer behind the last one. */
  function Accept(want: int, head: int, buf: seq<byte>, left: Sink): Step {
    if head >= LAST then Step(Rx(0, left(buf), true), [buf])
    else Step(Rx((want + 1) % 0x1_0000, buf, true), [])
  }

  function OnFragment(rx: Rx, f: Fragment, left: Sink): Step {
    if f.head % LAST == rx.want then Accept(rx.want, f.head, rx.buf + f.part, left)
    else if f.head % LAST == 0 then Accept(0, f.head, f.part, left)
    else Step(FRESH, [])
  }

  function Truncate(s: seq<byte>, n: int): seq<byte> {
    if 0 <= n < |s| then s[..n] else s
  }

  /** One call of `l2recv_one` with a receive buffer of `cap` bytes: a read takes what fits, no more. */
  function OnDatagram(cap: int, rx: Rx, d: seq<byte>, left: Sink): Step {
    if !rx.open then Step(rx, [])
    else
      var r := Truncate(d, HEAD + cap - |rx.buf|);
      if r == [] then Step(rx, [])
      else if |r| < HEAD then Step(Rx(rx.want, [], false), [])
      else if ToU16(r) == 0xffff then Step(if |r| > 8 then Rx(rx.want, [], false) else rx, [])
      else OnFragment(rx, Fragment(ToU16(r), r[HEAD..]), left)
  }

  /** What is no fragment: nothing at all, a header cut short, or a keepalive that is none. */
  lemma {:induction false} NoFragment(cap: int, rx: Rx, d: seq<byte>, left: Sink)
    requires |rx.buf| <= cap
    ensures !rx.open || d == [] ==> OnDatagram(cap, rx, d, left) == Step(rx, [])
    ensures rx.open && 0 < |d| < HEAD ==> OnDatagram(cap, rx, d, left) == Step(Rx(rx.want, [], false), [])
    ensures rx.open && |d| >= HEAD && ToU16(d) == 0xffff ==>
              OnDatagram(cap, rx, d, left)
              == Step(if |d| > 8 && cap - |rx.buf| > 4 then Rx(rx.want, [], false) else rx, [])
  {
    var r := Truncate(d, HEAD + cap - |rx.buf|);
    assert |d| >= HEAD ==> ToU16(r) == ToU16(d);
  }

  /** The receiver over a whole run of datagrams. */
  function Run(cap: int, rx: Rx, w: seq<seq<byte>>, left: Sink): Step
    decreases |w|
  {
    if w == [] then Step(rx, [])
    else
      var a := OnDatagram(cap, rx, w[0], left);
      var b := Run(cap, a.rx, w[1..], left);
      Step(b.rx, a.got + b.got)
  }

  /** The receiver over fragments, keepalives already left out. */
  ghost function RunFragments(cap: int, rx: Rx, fs: seq<Fragment>, left: Sink): Step
    decreases |fs|
  {
    if fs == [] then Step(rx, [])
    else
      var a := OnArrival(cap, rx, fs[0], left);
      var b := RunFragments(cap, a.rx, fs[1..], left);
      Step(b.rx, a.got + b.got)
  }

  /** A fragment cut to the free space of the receive buffer. */
  ghost function OnArrival(cap: int, rx: Rx, f: Fragment, left: Sink): Step {
    OnFragment(rx, f.(part := Truncate(f.part, cap - |rx.buf|)), left)
  }

  /** The datagrams `w` carry exactly the fragments `fs`, in order, with keepalives anywhere between. */
  ghost predicate Carries(w: seq<seq<byte>>, fs: seq<Fragment>)
    decreases |w|
  {
    if w == [] then fs == []
    else if w[0] == KEEPALIVE then Carries(w[1..], fs)
    else
      && fs != [] && |w[0]| >= HEAD && fs[0].head != 0xffff
      && Fragment(ToU16(w[0]), w[0][HEAD..]) == fs[0]
      && Carries(w[1..], fs[1..])
  }

  lemma {:induction false} RunStep(cap: int, rx: Rx, f: Fragment, fs: seq<Fragment>, left: Sink)
    ensures RunFragments(cap, rx, [], left) == Step(rx, [])
    ensures var a := OnArrival(cap, rx, f, left);
            var b := RunFragments(cap, a.rx, fs, left);
            RunFragments(cap, rx, [f] + fs, left) == Step(b.rx, a.got + b.got)
  {
    hide OnArrival;
    assert ([f] + fs)[1..] == fs;
  }

  lemma {:induction false} RunAppend(cap: int, rx: Rx, a: seq<Fragment>, b: seq<Fragment>, left: Sink)
    ensures var x := RunFragments(cap, rx, a, left);
            var y := RunFragments(cap, x.rx, b, left);
            RunFragments(cap, rx, a + b, left) == Step(y.rx, x.got + y.got)
    decreases |a|
  {
    hide *;
    if a == [] {
      assert a + b == b;
      RunStep(cap, rx, Fragment(0, []), [], left);
      assert [] + RunFragments(cap, rx, b, left).got == RunFragments(cap, rx, b, left).got;
    } else {
      var f, r := a[0], OnArrival(cap, rx, a[0], left);
      assert a == [f] + a[1..] && a + b == [f] + (a[1..] + b);
      RunStep(cap, rx, f, a[1..], left);
      RunStep(cap, rx, f, a[1..] + b, left);
      RunAppend(cap, r.rx, a[1..], b, left);
      AppendAssoc(r.got, RunFragments(cap, r.rx, a[1..], left).got,
                  RunFragments(cap, RunFragments(cap, r.rx, a[1..], left).rx, b, left).got);
    }
  }

  /** A keepalive changes nothing. */
  lemma {:induction false} KeepaliveIgnored(cap: int, rx: Rx, left: Sink)
    requires rx.open && |rx.buf| <= cap
    ensures OnDatagram(cap, rx, KEEPALIVE, left) == Step(rx, [])
  {
    assert Truncate(KEEPALIVE, HEAD + cap - |rx.buf|) == KEEPALIVE;
  }

  /** Any other datagram that carries a fragment is the arrival of that fragment. */
  lemma {:induction false} DatagramArrives(cap: int, rx: Rx, d: seq<byte>, f: Fragment, left: Sink)
    requires rx.open && |rx.buf| <= cap && forall b :: |left(b)| <= |b|
    requires |d| >= HEAD && f == Fragment(ToU16(d), d[HEAD..]) && f.head != 0xffff
    ensures var a := OnArrival(cap, rx, f, left);
            OnDatagram(cap, rx, d, left) == a && a.rx.open && |a.rx.buf| <= cap
  {
    var r := Truncate(d, HEAD + cap - |rx.buf|);
    assert r[HEAD..] == Truncate(f.part, cap - |rx.buf|);
    assert ToU16(r) == ToU16(d);
  }

  /** Keepalives change nothing: a run depends on the fragments alone. */
  lemma {:induction false} KeepalivesIgnored(cap: int, rx: Rx, w: seq<seq<byte>>, fs: seq<Fragment>, left: Sink)
    requires rx.open && |rx.buf| <= cap && forall b :: |left(b)| <= |b|
    requires Carries(w, fs)
    ensures Run(cap, rx, w, left) == RunFragments(cap, rx, fs, left)
    decreases |w|
  {
    hide OnDatagram, OnArrival, ToU16;
    if w != [] {
      if w[0] == KEEPALIVE {
        KeepaliveIgnored(cap, rx, left);
        KeepalivesIgnored(cap, rx, w[1..], fs, left);
        var got := Run(cap, rx, w[1..], left).got;
        assert [] + got == got;
      } else {
        DatagramArrives(cap, rx, w[0], fs[0], left);
        KeepalivesIgnored(cap, OnArrival(cap, rx, fs[0], left).rx, w[1..], fs[1..], left);
      }
    }
  }

  // ----- losses -----

  /** A message and which of its fragments the channel lets through. */
  datatype Transmission = Transmission(msg: seq<byte>, keep: seq<bool>)

  type Sent = s: Transmission | |s.keep| == |Fragments(s.msg, 0)| witness Transmission([], [false])

  function Surviving<T>(fs: seq<T>, keep: seq<bool>): seq<T>
    requires |fs| == |keep|
  {
    if fs == [] then []
    else (if keep[0] then [fs[0]] else []) + Surviving(fs[1..], keep[1..])
  }

  function Channel(sents: seq<Sent>): seq<Fragment> {
    if sents == [] then []
    else Surviving(Fragments(sents[0].msg, 0), sents[0].keep) + Channel(sents[1..])
  }

  /** The messages all of whose fragments survive. */
  function Complete(sents: seq<Sent>): seq<seq<byte>> {
    if sents == [] then []
    else (if AllKept(sents[0].keep) then [sents[0].msg] else []) + Complete(sents[1..])
  }

  // ----- what is left behind by what survives -----

  /** The number of the first fragment that survives. */
  function First(keep: seq<bool>): (n: nat)
    ensures n <= |keep|
  {
    if keep == [] || keep[0] then 0 else 1 + First(keep[1..])
  }

  /** How many fragments survive before the first that is lost. */
  function Lead(keep: seq<bool>): (n: nat)
    ensures n <= |keep|
  {
    if keep == [] || !keep[0] then 0 else 1 + Lead(keep[1..])
  }

  /** Between two messages: the index awaited, and how many bytes of an incomplete message are held. */
  datatype Wait = Wait(index: nat, held: nat)

  /** Behind an incomplete message `index`, exactly the fragments of the next one from there on survive. */
  predicate Splices(index: nat, keep: seq<bool>) {
    0 < index < |keep| && First(keep) == index && AllKept(keep[index..])
  }

  /** What waits after a message: the start of it, if all the rest is lost; or the start of another, so continued. */
  function After(cap: nat, w: Wait, keep: seq<bool>): Wait
    requires w.held <= cap
  {
    var j := First(keep);
    if j == |keep| then w
    else if j != 0 && j != w.index then Wait(0, 0)
    else
      var e := j + Lead(keep[j..]);
      if e == |keep| || true in keep[e..] then Wait(0, 0)
      else if j == 0 then Wait(e, Min(Min(PART, cap - w.held) + (e - 1) * PART, cap))
      else Wait(e, Min(w.held + (e - j) * PART, cap))
  }

  /** The message fits the receive buffer, and so does its first payload behind the bytes held. */
  predicate HasRoom(cap: nat, w: Wait, m: seq<byte>) {
    |m| <= cap && w.held + Min(|m|, PART) <= cap
  }

  /** No message is spliced to the start of another, and there is room for every complete one. */
  ghost predicate Clean(cap: nat, w: Wait, sents: seq<Sent>)
    requires w.held <= cap
    decreases |sents|
  {
    sents == [] ||
    (&& !Splices(w.index, sents[0].keep)
     && (AllKept(sents[0].keep) ==> HasRoom(cap, w, sents[0].msg))
     && Clean(cap, After(cap, w, sents[0].keep), sents[1..]))
  }

  /** A message the index has room for, which the sink takes whole. */
  predicate Sendable(s: Sent, left: Sink) {
    0 < |s.msg| <= MOST * PART && (AllKept(s.keep) ==> left(s.msg) == [])
  }

  ghost predicate Waits(cap: nat, rx: Rx, w: Wait) {
    && rx.open && rx.want == w.index < LAST && |rx.buf| == w.held <= cap
    && (w.index == 0 ==> w.held == 0)
  }

  lemma {:induction false} FragmentCount(s: seq<byte>, idx: int, n: nat)
    requires 0 <= idx && idx + n <= 0x1_0000 && |s| <= n * PART && idx < 0x1_0000 && n > 0
    ensures |Fragments(s, idx)| <= n
    decreases n
  {
    if |s| > PART && idx + 1 < 0x1_0000 {
      FragmentCount(s[PART..], idx + 1, n - 1);
    }
  }

  lemma {:induction false} FragmentStep(s: seq<byte>, idx: int)
    requires 0 <= idx < LAST
    ensures Fragments(s, idx) == if |s| <= PART then [Fragment(idx + LAST, s)]
                                 else [Fragment(idx, s[..PART])] + Fragments(s[PART..], idx + 1)
    ensures idx + |Fragments(s, idx)| <= LAST && |s| > PART ==> idx + 1 < LAST
    ensures |Fragments(s, idx)| > if |s| > PART then 1 else 0
  {
  }

  /** One fragment of a lossy channel: it is run if it survives, and the rest follows. */
  lemma {:induction false} RunSurvivor(cap: int, rx: Rx, f: Fragment, fs: seq<Fragment>, keep: seq<bool>, left: Sink)
    requires |keep| == 1 + |fs|
    ensures var a := if keep[0] then OnArrival(cap, rx, f, left) else Step(rx, []);
            var b := RunFragments(cap, a.rx, Surviving(fs, keep[1..]), left);
            RunFragments(cap, rx, Surviving([f] + fs, keep), left) == Step(b.rx, a.got + b.got)
  {
    hide OnArrival, RunFragments;
    assert ([f] + fs)[1..] == fs;
    var rest := Surviving(fs, keep[1..]);
    if keep[0] {
      RunStep(cap, rx, f, rest, left);
    } else {
      assert Surviving([f] + fs, keep) == rest;
      assert [] + RunFragments(cap, rx, rest, left).got == RunFragments(cap, rx, rest, left).got;
    }
  }

  lemma {:induction false} RunLastSurvivor(cap: int, rx: Rx, f: Fragment, keep: seq<bool>, left: Sink)
    requires |keep| == 1
    ensures RunFragments(cap, rx, Surviving([f], keep), left)
            == if keep[0] then OnArrival(cap, rx, f, left) else Step(rx, [])
  {
    hide OnArrival, RunFragments;
    assert [f] + [] == [f] && Surviving([f], keep) == if keep[0] then [f] else [];
    var a := OnArrival(cap, rx, f, left);
    RunStep(cap, rx, f, [], left);
    RunStep(cap, a.rx, f, [], left);
    assert a.got + [] == a.got;
  }

  /** Once an index has been missed, the rest of the message is given up. */
  lemma {:induction false} BrokenStays(cap: int, rx: Rx, s: seq<byte>, idx: int, keep: seq<bool>, left: Sink)
    requires 0 < idx < LAST && rx.open && 0 <= rx.want < idx
    requires idx + |Fragments(s, idx)| <= LAST && |keep| == |Fragments(s, idx)|
    ensures RunFragments(cap, rx, Surviving(Fragments(s, idx), keep), left)
            == Step(if true in keep then FRESH else rx, [])
    decreases |s|
  {
    hide RunFragments, Surviving, Fragments;
    FragmentStep(s, idx);
    var f := Fragments(s, idx)[0];
    assert OnArrival(cap, rx, f, left) == Step(FRESH, []);
    assert keep == [keep[0]] + keep[1..];
    if |s| > PART {
      RunSurvivor(cap, rx, f, Fragments(s[PART..], idx + 1), keep, left);
      BrokenStays(cap, if keep[0] then FRESH else rx, s[PART..], idx + 1, keep[1..], left);
    } else {
      RunLastSurvivor(cap, rx, f, keep, left);
    }
  }

  /** What becomes of a message of which everything before fragment `idx` is in `done`. */
  ghost function Outcome(cap: nat, done: seq<byte>, s: seq<byte>, idx: int, keep: seq<bool>, left: Sink): Step {
    var n := Lead(keep);
    if n == |keep| then
      var d := Truncate(done + s, cap);
      Step(Rx(0, left(d), true), [d])
    else if true in keep[n..] then Step(FRESH, [])
    else Step(Rx(idx + n, Truncate(done + Truncate(s, n * PART), cap), true), [])
  }

  lemma {:induction false} TruncateTwice(x: seq<byte>, y: seq<byte>, cap: nat)
    requires |x| <= cap
    ensures x + Truncate(y, cap - |x|) == Truncate(x + y, cap)
  {
  }

  lemma {:induction false} TruncateMore(x: seq<byte>, y: seq<byte>, cap: nat)
    ensures Truncate(Truncate(x, cap) + y, cap) == Truncate(x + y, cap)
    ensures |Truncate(x, cap)| == Min(|x|, cap)
  {
  }

  /** The same one fragment later. */
  lemma {:induction false} OutcomeStep(cap: nat, done: seq<byte>, s: seq<byte>, idx: int, keep: seq<bool>, left: Sink)
    requires |s| > PART && keep != [] && keep[0] && |keep| > 1 && |done| <= cap
    ensures Outcome(cap, Truncate(done + s[..PART], cap), s[PART..], idx + 1, keep[1..], left)
            == Outcome(cap, done, s, idx, keep, left)
  {
    hide Truncate;
    var n, a, b := Lead(keep) - 1, s[..PART], s[PART..];
    assert keep[n + 1..] == keep[1..][n..];
    TruncateMore(done + a, b, cap);
    assert (done + a) + b == done + s;
    var t := Truncate(b, n * PART);
    TruncateMore(done + a, t, cap);
    assert (done + a) + t == done + Truncate(s, (n + 1) * PART) by { TruncateSplit(s, n * PART); }
  }

  lemma {:induction false} TruncateSplit(s: seq<byte>, n: nat)
    requires |s| > PART
    ensures s[..PART] + Truncate(s[PART..], n) == Truncate(s, n + PART)
  {
    assert n < |s| - PART ==> s[..PART] + s[PART..][..n] == s[..n + PART];
    assert s[..PART] + s[PART..] == s;
  }

  lemma {:induction false} WholeOutcome(cap: nat, done: seq<byte>, s: seq<byte>, idx: int, keep: seq<bool>, left: Sink)
    requires AllKept(keep) && |done| + |s| <= cap
    ensures Outcome(cap, done, s, idx, keep, left) == Step(Rx(0, left(done + s), true), [done + s])
  {
    LeadAll(keep);
  }

  lemma {:induction false} OutcomeLast(cap: nat, done: seq<byte>, s: seq<byte>, idx: int, keep: seq<bool>, left: Sink)
    requires |keep| == 1 && keep[0]
    ensures var d := Truncate(done + s, cap); Outcome(cap, done, s, idx, keep, left) == Step(Rx(0, left(d), true), [d])
  {
    assert keep[1..] == [];
  }

  lemma {:induction false} NotLed(cap: nat, done: seq<byte>, s: seq<byte>, idx: int, keep: seq<bool>, left: Sink)
    requires keep != [] && !keep[0] && |done| <= cap
    ensures Outcome(cap, done, s, idx, keep, left) == Step(if true in keep then FRESH else Rx(idx, done, true), [])
  {
    assert keep[0..] == keep && done + Truncate(s, 0) == done;
  }

  /** A fragment with the index awaited adds as much as there is room for. */
  lemma {:induction false} Continued(cap: nat, done: seq<byte>, f: Fragment, left: Sink)
    requires |done| <= cap
    ensures OnArrival(cap, Rx(f.head % LAST, done, true), f, left)
            == Accept(f.head % LAST, f.head, Truncate(done + f.part, cap), left)
  {
    TruncateTwice(done, f.part, cap);
  }

  /**
   A message received without a gap so far: it is delivered, byte for byte as far as there is
   room, exactly when the rest of its fragments survive.
   */
  lemma {:induction false} WholeSoFar(cap: nat, done: seq<byte>, s: seq<byte>, idx: int, keep: seq<bool>, left: Sink)
    requires 0 <= idx < LAST && idx + |Fragments(s, idx)| <= LAST && |keep| == |Fragments(s, idx)|
    requires |done| <= cap
    ensures RunFragments(cap, Rx(idx, done, true), Surviving(Fragments(s, idx), keep), left)
            == Outcome(cap, done, s, idx, keep, left)
    decreases |s|
  {
    hide RunFragments, Surviving, Fragments, Outcome, Truncate, OnArrival;
    var rx := Rx(idx, done, true);
    FragmentStep(s, idx);
    var f := Fragments(s, idx)[0];
    Continued(cap, done, f, left);
    TruncateMore(done + f.part, [], cap);
    assert keep == [keep[0]] + keep[1..];
    if |s| > PART {
      RunSurvivor(cap, rx, f, Fragments(s[PART..], idx + 1), keep, left);
      if keep[0] {
        WholeSoFar(cap, Truncate(done + f.part, cap), s[PART..], idx + 1, keep[1..], left);
        OutcomeStep(cap, done, s, idx, keep, left);
        var r := Outcome(cap, done, s, idx, keep, left);
        assert [] + r.got == r.got;
      } else {
        BrokenStays(cap, rx, s[PART..], idx + 1, keep[1..], left);
        NotLed(cap, done, s, idx, keep, left);
      }
    } else {
      RunLastSurvivor(cap, rx, f, keep, left);
      if keep[0] {
        OutcomeLast(cap, done, s, idx, keep, left);
      } else {
        NotLed(cap, done, s, idx, keep, left);
      }
    }
  }

  // ----- a whole message, a whole run -----

  /** Fragment 0 starts afresh whatever the receiver was left with, in the room that leaves. */
  lemma {:induction false} FirstFragment(cap: nat, rx: Rx, w: Wait, f: Fragment, left: Sink)
    requires Waits(cap, rx, w) && f.head % LAST == 0
    ensures OnArrival(cap, rx, f, left) == Accept(0, f.head, Truncate(f.part, cap - w.held), left)
  {
    if rx.want == 0 {
      assert rx.buf + Truncate(f.part, cap) == Truncate(f.part, cap);
    }
  }

  /** What is left of a message whose fragments have all been lost so far, while fragment `rx.want` is awaited. */
  lemma {:induction false} NoneSoFar(cap: nat, rx: Rx, s: seq<byte>, idx: int, keep: seq<bool>, left: Sink)
    requires 0 < idx <= rx.want && idx < LAST && rx.open && |rx.buf| <= cap
    requires idx + |Fragments(s, idx)| <= LAST && |keep| == |Fragments(s, idx)|
    ensures var j := First(keep);
            (j < |keep| ==> j * PART <= |s|)
            && RunFragments(cap, rx, Surviving(Fragments(s, idx), keep), left)
               == if j == |keep| then Step(rx, [])
                  else if idx + j != rx.want then Step(FRESH, [])
                  else Outcome(cap, rx.buf, s[j * PART..], rx.want, keep[j..], left)
    decreases |s|
  {
    hide RunFragments, Surviving, Fragments, Outcome, OnArrival;
    var j := First(keep);
    FragmentStep(s, idx);
    if j < |keep| {
      SuffixFragments(s, idx, j);
    }
    if keep[0] {
      if idx == rx.want {
        assert s[0..] == s && keep[0..] == keep;
        WholeSoFar(cap, rx.buf, s, idx, keep, left);
      } else {
        WrongIndex(cap, rx, s, idx, keep, left);
      }
      return;
    }
    var f := Fragments(s, idx)[0];
    if |s| > PART {
      RunSurvivor(cap, rx, f, Fragments(s[PART..], idx + 1), keep, left);
      if idx < rx.want {
        NoneSoFar(cap, rx, s[PART..], idx + 1, keep[1..], left);
        if j < |keep| {
          assert s[PART..][(j - 1) * PART..] == s[j * PART..] && keep[1..][j - 1..] == keep[j..];
        }
      } else {
        BrokenStays(cap, rx, s[PART..], idx + 1, keep[1..], left);
        FirstOrNone(keep[1..]);
      }
    } else {
      RunLastSurvivor(cap, rx, f, keep, left);
    }
  }

  /** A fragment other than 0 with an index not awaited ends the message, and the rest finds it broken. */
  lemma {:induction false} WrongIndex(cap: int, rx: Rx, s: seq<byte>, j: int, keep: seq<bool>, left: Sink)
    requires 0 < j < LAST && rx.open && rx.want != j
    requires j + |Fragments(s, j)| <= LAST && |keep| == |Fragments(s, j)| && keep != [] && keep[0]
    ensures RunFragments(cap, rx, Surviving(Fragments(s, j), keep), left) == Step(FRESH, [])
  {
    hide RunFragments, Surviving, Fragments, OnArrival;
    FragmentStep(s, j);
    var f := Fragments(s, j)[0];
    NotAwaited(cap, rx, f, left);
    if |s| > PART {
      RunSurvivor(cap, rx, f, Fragments(s[PART..], j + 1), keep, left);
      BrokenStays(cap, FRESH, s[PART..], j + 1, keep[1..], left);
    } else {
      RunLastSurvivor(cap, rx, f, keep, left);
    }
  }

  lemma {:induction false} NotAwaited(cap: int, rx: Rx, f: Fragment, left: Sink)
    requires f.head % LAST != rx.want && f.head % LAST != 0
    ensures OnArrival(cap, rx, f, left) == Step(FRESH, [])
  {
  }

  lemma {:induction false} FirstOrNone(keep: seq<bool>)
    ensures First(keep) == |keep| <==> true !in keep
    ensures First(keep) < |keep| ==> keep[First(keep)]
    decreases |keep|
  {
    if keep != [] {
      assert keep == [keep[0]] + keep[1..];
      FirstOrNone(keep[1..]);
    }
  }

  lemma {:induction false} LeadAll(keep: seq<bool>)
    ensures Lead(keep) == |keep| <==> AllKept(keep)
    decreases |keep|
  {
    if keep != [] {
      AllKeptStep(keep);
      LeadAll(keep[1..]);
    }
  }

  lemma {:induction false} LeadFits(s: seq<byte>, idx: int, keep: seq<bool>)
    requires 0 <= idx < LAST && idx + |Fragments(s, idx)| <= LAST && |keep| == |Fragments(s, idx)|
    ensures Lead(keep) < |keep| ==> Lead(keep) * PART <= |s|
  {
    if Lead(keep) < |keep| {
      SuffixFragments(s, idx, Lead(keep));
    }
  }

  lemma {:induction false} OutcomeSizes(cap: nat, done: seq<byte>, s: seq<byte>, idx: int, keep: seq<bool>, left: Sink)
    requires |done| <= cap && (Lead(keep) < |keep| ==> Lead(keep) * PART <= |s|)
    ensures var r, n := Outcome(cap, done, s, idx, keep, left), Lead(keep);
            if n == |keep| then r == Step(Rx(0, left(Truncate(done + s, cap)), true), [Truncate(done + s, cap)])
            else if true in keep[n..] then r == Step(FRESH, [])
            else r.got == [] && r.rx.open && r.rx.want == idx + n && |r.rx.buf| == Min(|done| + n * PART, cap)
  {
    var n := Lead(keep);
    if n < |keep| {
      TruncateMore(done + Truncate(s, n * PART), [], cap);
    }
  }

  /** What waits after a message whose fragment 0 survives. */
  lemma {:induction false} AfterHead(cap: nat, w: Wait, keep: seq<bool>)
    requires w.held <= cap && |keep| > 1 && keep[0]
    ensures var n := Lead(keep[1..]);
            && (AllKept(keep) <==> n == |keep| - 1)
            && After(cap, w, keep)
               == if n == |keep| - 1 || true in keep[1..][n..] then Wait(0, 0)
                  else Wait(1 + n, Min(Min(PART, cap - w.held) + n * PART, cap))
  {
    LeadAll(keep);
    var n := Lead(keep[1..]);
    assert keep[0..] == keep && keep[1..][n..] == keep[n + 1..];
  }

  /** A whole message comes through unharmed exactly when there is room for it and for its first payload. */
  lemma {:induction false} WholeInRoom(cap: nat, w: Wait, m: seq<byte>)
    requires w.held <= cap && |m| > PART
    ensures var d := Truncate(Truncate(m[..PART], cap - w.held) + m[PART..], cap);
            if HasRoom(cap, w, m) then d == m else |d| < |m|
  {
    assert m[..PART] + m[PART..] == m;
  }

  /** Fragment 0 has started the message, and the others follow. */
  lemma {:induction false} HeadContinues(cap: nat, w: Wait, m: seq<byte>, keep: seq<bool>, left: Sink)
    requires w.held <= cap && PART < |m| <= MOST * PART && |keep| == |Fragments(m, 0)| && keep[0]
    requires |keep[1..]| == |Fragments(m[PART..], 1)|
    ensures var start := Truncate(m[..PART], cap - w.held);
            var r := RunFragments(cap, Rx(1, start, true), Surviving(Fragments(m[PART..], 1), keep[1..]), left);
            if AllKept(keep) then
              && |r.got| == 1
              && if HasRoom(cap, w, m) then r == Step(Rx(0, left(m), true), [m]) else |r.got[0]| < |m|
            else r.got == [] && Waits(cap, r.rx, After(cap, w, keep))
  {
    hide RunFragments, Surviving, Fragments, Outcome, Lead, First, After, HasRoom, Truncate, AllKept;
    FragmentStep(m, 0);
    FragmentCount(m, 0, MOST);
    AfterHead(cap, w, keep);
    WholeInRoom(cap, w, m);
    TruncateMore(m[..PART], [], cap - w.held);
    var start, rest := Truncate(m[..PART], cap - w.held), m[PART..];
    WholeSoFar(cap, start, rest, 1, keep[1..], left);
    LeadFits(rest, 1, keep[1..]);
    OutcomeSizes(cap, start, rest, 1, keep[1..], left);
  }

  /** A message whose fragment 0 survives. */
  lemma {:induction false} HeadArrives(cap: nat, rx: Rx, w: Wait, s: Sent, left: Sink)
    requires Waits(cap, rx, w) && 0 < |s.msg| <= MOST * PART && s.keep[0]
    ensures var r, m := RunFragments(cap, rx, Surviving(Fragments(s.msg, 0), s.keep), left), s.msg;
            if AllKept(s.keep) then
              && |r.got| == 1
              && if HasRoom(cap, w, m) then r == Step(Rx(0, left(m), true), [m]) else |r.got[0]| < |m|
            else r.got == [] && Waits(cap, r.rx, After(cap, w, s.keep))
  {
    hide RunFragments, Surviving, Fragments, OnArrival, Lead, First, After;
    var m, keep := s.msg, s.keep;
    FragmentStep(m, 0);
    var f := Fragments(m, 0)[0];
    FirstFragment(cap, rx, w, f, left);
    if |m| > PART {
      hide HasRoom, Truncate, AllKept, Waits;
      var rest := m[PART..];
      RunSurvivor(cap, rx, f, Fragments(rest, 1), keep, left);
      HeadContinues(cap, w, m, keep, left);
      var start := Truncate(f.part, cap - w.held);
      var r := RunFragments(cap, Rx(1, start, true), Surviving(Fragments(rest, 1), keep[1..]), left);
      assert [] + r.got == r.got;
    } else {
      RunLastSurvivor(cap, rx, f, keep, left);
    }
  }

  /** What waits after a message whose fragment 0 is lost. */
  lemma {:induction false} AfterTail(cap: nat, w: Wait, keep: seq<bool>)
    requires w.held <= cap && keep != [] && !keep[0]
    ensures First(keep) == 1 + First(keep[1..])
    ensures var j := First(keep);
            && (j == |keep| || j != w.index ==> !Splices(w.index, keep))
            && (j == |keep| ==> After(cap, w, keep) == w)
            && (j < |keep| && j != w.index ==> After(cap, w, keep) == Wait(0, 0))
  {
  }

  /** And when its first survivor is the fragment awaited. */
  lemma {:induction false} AfterAwaited(cap: nat, w: Wait, keep: seq<bool>, rest: seq<bool>)
    requires w.held <= cap && 0 < w.index == First(keep) < |keep| && rest == keep[w.index..]
    ensures Splices(w.index, keep) <==> Lead(rest) == |rest|
    ensures After(cap, w, keep)
            == if Lead(rest) == |rest| || true in rest[Lead(rest)..] then Wait(0, 0)
               else Wait(w.index + Lead(rest), Min(w.held + Lead(rest) * PART, cap))
  {
    LeadAll(rest);
    assert rest[Lead(rest)..] == keep[w.index + Lead(rest)..];
  }

  /** The first survivor is the fragment awaited. */
  lemma {:induction false} TailContinues(cap: nat, rx: Rx, w: Wait, m: seq<byte>, keep: seq<bool>, left: Sink)
    requires Waits(cap, rx, w) && |m| <= MOST * PART && |keep| == |Fragments(m, 0)|
    requires 0 < w.index == First(keep) < |keep| && !keep[0]
    ensures var j := First(keep);
            && j * PART <= |m|
            && var r := Outcome(cap, rx.buf, m[j * PART..], j, keep[j..], left);
               if Splices(j, keep) then |r.got| == 1 else r.got == [] && Waits(cap, r.rx, After(cap, w, keep))
  {
    hide Fragments, Outcome, Lead, First, After, Truncate, Splices, AllKept;
    var j, rest := First(keep), keep[w.index..];
    AfterAwaited(cap, w, keep, rest);
    FragmentCount(m, 0, MOST);
    SuffixFragments(m, 0, j);
    var s := m[j * PART..];
    LeadFits(s, j, rest);
    OutcomeSizes(cap, rx.buf, s, j, rest, left);
  }

  /** Fragment 0 is lost while another one is awaited. */
  lemma {:induction false} TailArrives(cap: nat, rx: Rx, w: Wait, m: seq<byte>, keep: seq<bool>, left: Sink)
    requires Waits(cap, rx, w) && w.index > 0 && PART < |m| <= MOST * PART
    requires |keep| == |Fragments(m, 0)| && !keep[0]
    requires |keep[1..]| == |Fragments(m[PART..], 1)|
    ensures var r := RunFragments(cap, rx, Surviving(Fragments(m[PART..], 1), keep[1..]), left);
            if Splices(w.index, keep) then |r.got| == 1
            else r.got == [] && Waits(cap, r.rx, After(cap, w, keep))
  {
    hide RunFragments, Surviving, Fragments, Outcome, Lead, First, After, Truncate, Splices, AllKept;
    FragmentCount(m, 0, MOST);
    FragmentStep(m, 0);
    AfterTail(cap, w, keep);
    var rest, j := m[PART..], First(keep);
    NoneSoFar(cap, rx, rest, 1, keep[1..], left);
    if j == w.index && j < |keep| {
      TailContinues(cap, rx, w, m, keep, left);
      assert keep[1..][j - 1..] == keep[j..] && rest[(j - 1) * PART..] == m[j * PART..];
    }
  }

  /** A message whose fragment 0 is lost. */
  lemma {:induction false} HeadLost(cap: nat, rx: Rx, w: Wait, s: Sent, left: Sink)
    requires Waits(cap, rx, w) && 0 < |s.msg| <= MOST * PART && !s.keep[0]
    ensures var r := RunFragments(cap, rx, Surviving(Fragments(s.msg, 0), s.keep), left);
            if Splices(w.index, s.keep) then |r.got| == 1
            else r.got == [] && Waits(cap, r.rx, After(cap, w, s.keep))
  {
    hide RunFragments, Surviving, Fragments, OnArrival, Lead, First, After, Truncate, Splices, AllKept;
    var m, keep := s.msg, s.keep;
    FragmentStep(m, 0);
    FragmentCount(m, 0, MOST);
    AfterTail(cap, w, keep);
    FirstOrNone(keep[1..]);
    var f := Fragments(m, 0)[0];
    if |m| > PART {
      var rest := m[PART..];
      RunSurvivor(cap, rx, f, Fragments(rest, 1), keep, left);
      var r := RunFragments(cap, rx, Surviving(Fragments(rest, 1), keep[1..]), left);
      assert [] + r.got == r.got;
      if w.index == 0 {
        BrokenStays(cap, rx, rest, 1, keep[1..], left);
      } else {
        TailArrives(cap, rx, w, m, keep, left);
      }
    } else {
      RunLastSurvivor(cap, rx, f, keep, left);
    }
  }

  /** A message all of whose fragments arrive makes a delivery, whatever state the receiver is in. */
  lemma {:induction false} WholeDelivers(cap: int, rx: Rx, s: seq<byte>, idx: int, left: Sink)
    requires 0 <= idx < LAST && idx + |Fragments(s, idx)| <= LAST && (idx == 0 || rx.want == idx)
    ensures |RunFragments(cap, rx, Fragments(s, idx), left).got| >= 1
    decreases |s|
  {
    hide RunFragments, Fragments;
    FragmentStep(s, idx);
    var f := Fragments(s, idx)[0];
    if |s| > PART {
      RunStep(cap, rx, f, Fragments(s[PART..], idx + 1), left);
      WholeDelivers(cap, OnArrival(cap, rx, f, left).rx, s[PART..], idx + 1, left);
    } else {
      RunStep(cap, rx, f, [], left);
      assert [f] + [] == [f];
    }
  }

  /** From any state at least the complete messages make a delivery each. */
  lemma {:induction false} AtLeastComplete(cap: int, rx: Rx, sents: seq<Sent>, left: Sink)
    requires forall s :: s in sents ==> Sendable(s, left)
    ensures |RunFragments(cap, rx, Channel(sents), left).got| >= |Complete(sents)|
    decreases |sents|
  {
    hide RunFragments, Surviving, Fragments, OnArrival;
    if sents != [] {
      var s := sents[0];
      assert s in sents;
      var a := Surviving(Fragments(s.msg, 0), s.keep);
      RunAppend(cap, rx, a, Channel(sents[1..]), left);
      AtLeastComplete(cap, RunFragments(cap, rx, a, left).rx, sents[1..], left);
      if AllKept(s.keep) {
        AllSurvive(Fragments(s.msg, 0), s.keep);
        FragmentCount(s.msg, 0, MOST);
        WholeDelivers(cap, rx, s.msg, 0, left);
      }
    }
  }

  /**
   Safety and completeness under loss, exactly, over every run: the receiver delivers the
   messages all of whose fragments survive, in order and byte for byte, and nothing else, if and
   only if no message is spliced to the start of another and each complete one has room.
   */
  lemma {:induction false} DeliversExactly(cap: nat, rx: Rx, w: Wait, sents: seq<Sent>, left: Sink)
    requires Waits(cap, rx, w) && forall s :: s in sents ==> Sendable(s, left)
    ensures RunFragments(cap, rx, Channel(sents), left).got == Complete(sents) <==> Clean(cap, w, sents)
    decreases |sents|
  {
    hide RunFragments, Surviving, Fragments, OnArrival, HasRoom, After;
    if sents == [] {
      RunStep(cap, rx, Fragment(0, []), [], left);
    } else {
      var s := sents[0];
      assert s in sents;
      FragmentStep(s.msg, 0);
      var a := Surviving(Fragments(s.msg, 0), s.keep);
      RunAppend(cap, rx, a, Channel(sents[1..]), left);
      var r := RunFragments(cap, rx, a, left);
      var got, all := RunFragments(cap, r.rx, Channel(sents[1..]), left).got, Complete(sents[1..]);
      if s.keep[0] {
        HeadArrives(cap, rx, w, s, left);
      } else {
        HeadLost(cap, rx, w, s, left);
      }
      if Splices(w.index, s.keep) {
        AtLeastComplete(cap, r.rx, sents[1..], left);
      } else if AllKept(s.keep) && !HasRoom(cap, w, s.msg) {
        assert (r.got + got)[0] != ([s.msg] + all)[0];
      } else {
        if AllKept(s.keep) {
          AfterComplete(cap, w, s.keep);
        }
        DeliversExactly(cap, r.rx, After(cap, w, s.keep), sents[1..], left);
        SamePrefix(r.got, got, all);
      }
    }
  }

  lemma {:induction false} AfterComplete(cap: nat, w: Wait, keep: seq<bool>)
    requires w.held <= cap && keep != [] && AllKept(keep)
    ensures After(cap, w, keep) == Wait(0, 0)
  {
    LeadAll(keep);
    assert keep[0..] == keep;
  }

  /** The same on the wire, with keepalives anywhere: what the receiving side of a connection hands on. */
  lemma {:induction false} WireDeliversExactly(cap: nat, sents: seq<Sent>, w: seq<seq<byte>>, left: Sink)
    requires (forall b :: |left(b)| <= |b|) && forall s :: s in sents ==> Sendable(s, left)
    requires Carries(w, Channel(sents))
    ensures Run(cap, FRESH, w, left).got == Complete(sents) <==> Clean(cap, Wait(0, 0), sents)
  {
    KeepalivesIgnored(cap, FRESH, w, Channel(sents), left);
    DeliversExactly(cap, FRESH, Wait(0, 0), sents, left);
  }

  // ----- when runs are clean -----

  /**
   What suffices of each message: its fragment 0 arrives if any does, the buffer holds it if it
   is complete, and one payload more than it leaves behind if exactly a start of it arrives.
   */
  ghost predicate Admissible(s: Sent, cap: nat, left: Sink) {
    var n := Lead(s.keep);
    && Sendable(s, left)
    && (true in s.keep ==> s.keep[0])
    && (AllKept(s.keep) ==> |s.msg| <= cap)
    && (0 < n < |s.keep| && true !in s.keep[n..] ==> (n + 1) * PART <= cap)
  }

  /** What is held leaves room for one payload more. */
  predicate Spare(cap: nat, w: Wait) {
    w.held <= cap && w.held <= w.index * PART && (w.index > 0 ==> (w.index + 1) * PART <= cap)
  }

  lemma {:induction false} AdmissibleStep(cap: nat, w: Wait, s: Sent, left: Sink)
    requires Spare(cap, w) && Admissible(s, cap, left)
    ensures !Splices(w.index, s.keep) && (AllKept(s.keep) ==> HasRoom(cap, w, s.msg))
    ensures Spare(cap, After(cap, w, s.keep))
  {
    hide Fragments, Lead;
    FragmentStep(s.msg, 0);
    FirstOrNone(s.keep);
    assert s.keep[0..] == s.keep;
  }

  lemma {:induction false} AdmissibleIsClean(cap: nat, w: Wait, sents: seq<Sent>, left: Sink)
    requires Spare(cap, w) && forall s :: s in sents ==> Admissible(s, cap, left)
    ensures Clean(cap, w, sents)
    decreases |sents|
  {
    hide Admissible, After, Splices, HasRoom, AllKept;
    if sents != [] {
      assert sents[0] in sents;
      AdmissibleStep(cap, w, sents[0], left);
      AdmissibleIsClean(cap, After(cap, w, sents[0].keep), sents[1..], left);
    }
  }

  /** When every message is admissible, exactly the complete ones are delivered. */
  lemma {:induction false} LossSafe(cap: nat, rx: Rx, w: Wait, sents: seq<Sent>, left: Sink)
    requires Waits(cap, rx, w) && Spare(cap, w)
    requires forall s :: s in sents ==> Admissible(s, cap, left)
    ensures RunFragments(cap, rx, Channel(sents), left).got == Complete(sents)
  {
    AdmissibleIsClean(cap, w, sents, left);
    DeliversExactly(cap, rx, w, sents, left);
  }

  /** The same on the wire. */
  lemma {:induction false} WireLossSafe(cap: nat, sents: seq<Sent>, w: seq<seq<byte>>, left: Sink)
    requires forall b :: |left(b)| <= |b|
    requires forall s :: s in sents ==> Admissible(s, cap, left)
    requires Carries(w, Channel(sents))
    ensures Run(cap, FRESH, w, left).got == Complete(sents)
  {
    AdmissibleIsClean(cap, Wait(0, 0), sents, left);
    WireDeliversExactly(cap, sents, w, left);
  }

  // ----- no loss: the exact bound -----

  /** The datagrams of a list of fragments; the receiver ignores the second header word. */
  function Datagrams(fs: seq<Fragment>): seq<seq<byte>> {
    if fs == [] then [] else [U16(fs[0].head % 0x1_0000) + U16(0) + fs[0].part] + Datagrams(fs[1..])
  }

  lemma {:induction false} DatagramFits(cap: int, rx: Rx, f: Fragment, left: Sink)
    requires rx.open && |rx.buf| + |f.part| <= cap && 0 <= f.head < 0x1_0000
    ensures OnDatagram(cap, rx, U16(f.head) + U16(0) + f.part, left)
            == if f.head == 0xffff then Step(if |f.part| > 4 then Rx(rx.want, [], false) else rx, [])
               else OnFragment(rx, f, left)
  {
    var d := U16(f.head) + U16(0) + f.part;
    U16RoundTrip(f.head, U16(0) + f.part);
    assert d == U16(f.head) + (U16(0) + f.part);
    assert d[HEAD..] == f.part && Truncate(d, HEAD + cap - |rx.buf|) == d;
  }

  /** The final fragment: it completes the message, unless its header is the keepalive. */
  lemma {:induction false} UnbrokenEnd(cap: int, done: seq<byte>, s: seq<byte>, idx: int, left: Sink)
    requires 0 <= idx < LAST && 0 < |s| <= PART && |done| + |s| <= cap && (idx == 0 ==> done == [])
    ensures Run(cap, Rx(idx, done, true), Datagrams(Fragments(s, idx)), left).got
            == if idx == MOST then [] else [done + s]
  {
    var rx, f := Rx(idx, done, true), Fragment(idx + LAST, s);
    assert Fragments(s, idx) == [f] + [];
    hide Fragments, Run, U16, OnDatagram;
    DatagramsStep([f]);
    DatagramFits(cap, rx, f, left);
    RunDatagrams(cap, rx, f, [], left);
    var a := OnDatagram(cap, rx, U16(f.head) + U16(0) + f.part, left);
    RunNothing(cap, a.rx, left);
    assert a.got + [] == a.got;
  }

  /** Any other fragment adds its part. */
  lemma {:induction false} UnbrokenNext(cap: int, done: seq<byte>, s: seq<byte>, idx: int, left: Sink)
    requires 0 <= idx < LAST && |s| > PART && |done| + |s| <= cap && (idx == 0 ==> done == [])
    ensures Run(cap, Rx(idx, done, true), Datagrams(Fragments(s, idx)), left).got
            == Run(cap, Rx(idx + 1, done + s[..PART], true), Datagrams(Fragments(s[PART..], idx + 1)), left).got
  {
    hide Fragments, Run, U16, OnDatagram, OnFragment, Datagrams;
    var rx, f := Rx(idx, done, true), Fragment(idx, s[..PART]);
    FragmentStep(s, idx);
    var rest := Fragments(s[PART..], idx + 1);
    assert ([f] + rest)[1..] == rest;
    DatagramsStep([f] + rest);
    DatagramFits(cap, rx, f, left);
    Continues(rx, f, left);
    RunDatagrams(cap, rx, f, Datagrams(rest), left);
    var got := Run(cap, Rx(idx + 1, done + f.part, true), Datagrams(rest), left).got;
    assert [] + got == got;
  }

  lemma {:induction false} Continues(rx: Rx, f: Fragment, left: Sink)
    requires 0 <= f.head < LAST && rx.want == f.head
    ensures OnFragment(rx, f, left) == Step(Rx(f.head + 1, rx.buf + f.part, true), [])
  {
  }

  /** Without loss a message up to the bound arrives; one byte more and what arrives is not the message. */
  lemma {:induction false} UnbrokenRun(cap: int, done: seq<byte>, s: seq<byte>, idx: int, left: Sink)
    requires 0 <= idx < LAST && s != [] && |done| + |s| <= cap && (idx == 0 ==> done == [])
    requires |done| == idx * PART
    ensures Run(cap, Rx(idx, done, true), Datagrams(Fragments(s, idx)), left).got == [done + s]
            <==> |done| + |s| <= MOST * PART
    decreases |s|
  {
    hide Run, Fragments, Datagrams, U16, OnDatagram, OnFragment, Accept;
    if |s| <= PART {
      UnbrokenEnd(cap, done, s, idx, left);
    } else {
      UnbrokenNext(cap, done, s, idx, left);
      var next := done + s[..PART];
      assert next + s[PART..] == done + s;
      if idx < MOST {
        UnbrokenRun(cap, next, s[PART..], idx + 1, left);
      } else {
        TooLong(cap, next, s[PART..], left);
      }
    }
  }

  /** Index 0x8000 reads as a final fragment 0: it is delivered on its own. */
  lemma {:induction false} TooLong(cap: int, done: seq<byte>, s: seq<byte>, left: Sink)
    requires s != [] && |done| + |s| <= cap
    ensures var r := Run(cap, Rx(LAST, done, true), Datagrams(Fragments(s, LAST)), left);
            r.got != [] && |r.got[0]| <= PART
  {
    var rx := Rx(LAST, done, true);
    var fs := Fragments(s, LAST);
    hide Run, U16, OnDatagram;
    assert fs[0].head == LAST && |fs[0].part| <= PART;
    DatagramsStep(fs);
    DatagramFits(cap, rx, fs[0], left);
    RunDatagrams(cap, rx, fs[0], Datagrams(fs[1..]), left);
  }

  lemma {:induction false} DatagramsStep(fs: seq<Fragment>)
    requires fs != [] && 0 <= fs[0].head < 0x1_0000
    ensures Datagrams(fs) == [U16(fs[0].head) + U16(0) + fs[0].part] + Datagrams(fs[1..])
  {
  }

  lemma {:induction false} RunDatagrams(cap: int, rx: Rx, f: Fragment, w: seq<seq<byte>>, left: Sink)
    requires 0 <= f.head < 0x1_0000
    ensures var d := U16(f.head) + U16(0) + f.part;
            var a := OnDatagram(cap, rx, d, left);
            var b := Run(cap, a.rx, w, left);
            Run(cap, rx, [d] + w, left) == Step(b.rx, a.got + b.got)
  {
    hide OnDatagram, U16;
    var d := U16(f.head) + U16(0) + f.part;
    assert ([d] + w)[1..] == w;
  }

  lemma {:induction false} RunNothing(cap: int, rx: Rx, left: Sink)
    ensures Run(cap, rx, [], left) == Step(rx, [])
  {
  }

  /**
   The exact bound of the index and flag in one 16-bit word: a message sent without loss is
   delivered if and only if it has at most 32767 fragments' worth of bytes.
   */
  lemma {:induction false} RoundTripExactly(cap: int, m: seq<byte>, left: Sink)
    requires 0 < |m| <= cap
    ensures Run(cap, FRESH, Datagrams(Fragments(m, 0)), left).got == [m] <==> |m| <= MOST * PART
  {
    assert [] + m == m;
    UnbrokenRun(cap, [], m, 0, left);
  }

  /** Exactly the final fragment of a message carries the last flag, and none reads as a keepalive. */
  lemma {:induction false} OnlyFinalFlagged(s: seq<byte>, idx: int, i: nat)
    requires 0 <= idx < LAST && idx + |Fragments(s, idx)| <= MOST && i < |Fragments(s, idx)|
    ensures var f := Fragments(s, idx)[i];
            && (f.head >= LAST <==> i == |Fragments(s, idx)| - 1)
            && f.head % LAST == idx + i && f.head != 0xffff
    decreases |s|
  {
    hide Fragments;
    FragmentStep(s, idx);
    if |s| > PART && i > 0 {
      OnlyFinalFlagged(s[PART..], idx + 1, i - 1);
    }
  }

  /** Every fragment but the last fills a datagram of 1456 bytes, and the parts are the message. */
  lemma {:induction false} FragmentsFill(s: seq<byte>, idx: int, i: nat)
    requires 0 <= idx < LAST && idx + |Fragments(s, idx)| <= LAST && i < |Fragments(s, idx)|
    ensures i < |Fragments(s, idx)| - 1 ==> HEAD + |Fragments(s, idx)[i].part| == 1456
    ensures i == |Fragments(s, idx)| - 1 ==> HEAD + |Fragments(s, idx)[i].part| <= 1456
    ensures i * (1456 - HEAD) <= |s| && Fragments(s, idx)[i].part <= s[i * (1456 - HEAD)..]
    decreases |s|
  {
    hide Fragments;
    FragmentStep(s, idx);
    if |s| > PART && i > 0 {
      FragmentsFill(s[PART..], idx + 1, i - 1);
      assert s[PART..][(i - 1) * PART..] == s[i * PART..];
    } else {
      assert s[0..] == s;
    }
  }

  // ----- what the loss theorem cannot do without -----

  lemma {:induction false} PrefixRun(cap: int, done: seq<byte>, s: seq<byte>, idx: int, n: nat, left: Sink)
    requires 0 <= idx < LAST && idx + |Fragments(s, idx)| <= LAST && n < |Fragments(s, idx)|
    requires s != [] && |done| + |s| <= cap && (idx == 0 ==> done == [])
    ensures |s| > n * PART
    ensures RunFragments(cap, Rx(idx, done, true), Fragments(s, idx)[..n], left)
            == Step(Rx(idx + n, done + s[..n * PART], true), [])
    decreases n
  {
    hide RunFragments, Fragments, OnArrival;
    var rx := Rx(idx, done, true);
    FragmentStep(s, idx);
    var f := Fragments(s, idx)[0];
    RunStep(cap, rx, f, [], left);
    if n == 0 {
      assert done + s[..0] == done && Fragments(s, idx)[..0] == [];
    } else {
      var rest := Fragments(s[PART..], idx + 1);
      assert Fragments(s, idx)[..n] == [f] + rest[..n - 1];
      RunStep(cap, rx, f, rest[..n - 1], left);
      var next := done + s[..PART];
      ContinuedWhole(cap, rx, f, left);
      PrefixRun(cap, next, s[PART..], idx + 1, n - 1, left);
      PrefixJoin(done, s, n);
    }
  }

  lemma {:induction false} PrefixJoin(done: seq<byte>, s: seq<byte>, n: nat)
    requires n > 0 && |s| >= n * PART
    ensures (n - 1) * PART <= |s| - PART
    ensures (done + s[..PART]) + s[PART..][..(n - 1) * PART] == done + s[..n * PART]
  {
  }

  lemma {:induction false} ContinuedWhole(cap: int, rx: Rx, f: Fragment, left: Sink)
    requires rx.open && 0 <= rx.want == f.head < LAST && |rx.buf| + |f.part| <= cap
    ensures OnArrival(cap, rx, f, left) == Step(Rx(f.head + 1, rx.buf + f.part, true), [])
  {
  }

  lemma {:induction false} SuffixFragments(s: seq<byte>, idx: int, j: nat)
    requires 0 <= idx < LAST && idx + |Fragments(s, idx)| <= LAST && j < |Fragments(s, idx)|
    ensures j * PART <= |s| && Fragments(s, idx)[j..] == Fragments(s[j * PART..], idx + j)
    ensures s != [] ==> s[j * PART..] != []
    decreases j
  {
    hide Fragments;
    FragmentStep(s, idx);
    var fs := Fragments(s, idx);
    if j > 0 {
      var rest := Fragments(s[PART..], idx + 1);
      assert fs[j..] == rest[j - 1..];
      SuffixFragments(s[PART..], idx + 1, j - 1);
      assert s[PART..][(j - 1) * PART..] == s[j * PART..];
    } else {
      assert fs[j..] == fs && s[j * PART..] == s;
    }
  }

  lemma {:induction false} AllSurvive<T>(fs: seq<T>, keep: seq<bool>)
    requires |fs| == |keep| && AllKept(keep)
    ensures Surviving(fs, keep) == fs
    decreases |fs|
  {
    if fs != [] {
      AllKeptStep(keep);
      AllSurvive(fs[1..], keep[1..]);
    }
  }

  /**
   Why fragment 0 must not be lost: when the tail of `a` from fragment `k` on and the head of
   `b` before fragment `j` are lost, the receiver hands on a mixture of the two messages if and
   only if `j == k`.
   */
  lemma {:induction false} SplicedExactly(cap: nat, a: seq<byte>, b: seq<byte>, k: nat, j: nat, left: Sink)
    requires |Fragments(a, 0)| <= LAST && |Fragments(b, 0)| <= LAST
    requires 0 < k < |Fragments(a, 0)| && 0 < j < |Fragments(b, 0)|
    requires |a| + |b| <= cap
    ensures k * PART <= |a| && j * PART <= |b|
    ensures RunFragments(cap, FRESH, Fragments(a, 0)[..k] + Fragments(b, 0)[j..], left).got
            == if j == k then [a[..k * PART] + b[j * PART..]] else []
  {
    hide RunFragments, Fragments;
    FragmentStep(a, 0);
    FragmentStep(b, 0);
    PrefixRun(cap, [], a, 0, k, left);
    SuffixFragments(b, 0, j);
    var done, s := a[..k * PART], b[j * PART..];
    assert [] + done == done;
    RunAppend(cap, FRESH, Fragments(a, 0)[..k], Fragments(s, j), left);
    var r := RunFragments(cap, Rx(k, done, true), Fragments(s, j), left);
    assert [] + r.got == r.got;
    TailOfAnother(cap, done, k, s, j, left);
  }

  lemma {:induction false} TailOfAnother(cap: nat, done: seq<byte>, k: nat, s: seq<byte>, j: int, left: Sink)
    requires 0 < j < LAST && j + |Fragments(s, j)| <= LAST && |done| + |s| <= cap
    ensures RunFragments(cap, Rx(k, done, true), Fragments(s, j), left).got == if j == k then [done + s] else []
  {
    hide RunFragments, Fragments, Surviving, Truncate, Outcome;
    var fs := Fragments(s, j);
    FragmentStep(s, j);
    var keep := seq(|fs|, _ => true);
    AllSurvive(fs, keep);
    if j == k {
      WholeSoFar(cap, done, s, j, keep, left);
      WholeOutcome(cap, done, s, j, keep, left);
    } else {
      WrongIndex(cap, Rx(k, done, true), s, j, keep, left);
    }
  }

  /**
   Why the buffer needs room to spare: behind the bytes of an incomplete message, the next is
   delivered unharmed if and only if its first payload fits in behind them.
   */
  lemma {:induction false} StaleBytesNeedRoom(cap: nat, stale: seq<byte>, k: int, m: seq<byte>, left: Sink)
    requires 0 < k < LAST && |stale| <= cap && 0 < |m| <= cap && |m| <= MOST * PART
    ensures RunFragments(cap, Rx(k, stale, true), Fragments(m, 0), left).got == [m]
            <==> |stale| + Min(|m|, PART) <= cap
  {
    hide RunFragments, Fragments, Surviving;
    var fs := Fragments(m, 0);
    var s: Sent := Transmission(m, seq(|fs|, _ => true));
    AllSurvive(fs, s.keep);
    FragmentStep(m, 0);
    HeadArrives(cap, Rx(k, stale, true), Wait(k, |stale|), s, left);
  }

  // ----- the object that does it -----

  ghost function AllFragments(queue: seq<seq<byte>>): seq<Fragment> {
    if queue == [] then [] else Fragments(queue[0], 0) + AllFragments(queue[1..])
  }

  lemma {:induction false} AllFragmentsSnoc(q: seq<seq<byte>>, m: seq<byte>)
    ensures AllFragments(q + [m]) == AllFragments(q) + Fragments(m, 0)
    decreases |q|
  {
    hide Fragments;
    if q == [] {
      assert q + [m] == [m] && [m][1..] == [];
      assert Fragments(m, 0) + [] == [] + Fragments(m, 0);
    } else {
      assert (q + [m])[1..] == q[1..] + [m];
      AllFragmentsSnoc(q[1..], m);
      AppendAssoc(Fragments(q[0], 0), AllFragments(q[1..]), Fragments(m, 0));
    }
  }

  lemma {:induction false} CarriesNone()
    ensures Carries([], []) && AllFragments([]) == []
  {
  }

  lemma {:induction false} CarriesSnoc(w: seq<seq<byte>>, fs: seq<Fragment>, d: seq<byte>, f: Fragment)
    requires Carries(w, fs) && |d| >= HEAD && f == Fragment(ToU16(d), d[HEAD..]) && f.head != 0xffff
    ensures Carries(w + [d], fs + [f])
    decreases |w|
  {
    if w == [] {
      assert w + [d] == [d] && fs + [f] == [f];
      assert [d][1..] == [] && [f][1..] == [];
      assert d != KEEPALIVE;
    } else {
      assert (w + [d])[1..] == w[1..] + [d];
      if w[0] == KEEPALIVE {
        CarriesSnoc(w[1..], fs, d, f);
      } else {
        assert (fs + [f])[1..] == fs[1..] + [f];
        CarriesSnoc(w[1..], fs[1..], d, f);
      }
    }
  }

  lemma {:induction false} CarriesKeepalive(w: seq<seq<byte>>, fs: seq<Fragment>)
    requires Carries(w, fs)
    ensures Carries(w + [KEEPALIVE], fs)
    decreases |w|
  {
    if w == [] {
      assert w + [KEEPALIVE] == [KEEPALIVE] && [KEEPALIVE][1..] == [];
    } else {
      assert (w + [KEEPALIVE])[1..] == w[1..] + [KEEPALIVE];
      CarriesKeepalive(w[1..], if w[0] == KEEPALIVE then fs else fs[1..]);
    }
  }

  /** Each fragment that has left was sent in full. */
  ghost predicate Sufficed(fs: seq<Fragment>, slens: seq<int>) {
    |fs| <= |slens| && forall j :: 0 <= j < |fs| ==> slens[j] >= HEAD + |fs[j].part|
  }

  lemma {:induction false} NothingSufficed(slens: seq<int>)
    ensures Sufficed([], slens)
  {
  }

  lemma {:induction false} TakeOne(queue: seq<seq<byte>>, taken: nat, first: seq<Fragment>, fs: seq<Fragment>)
    requires taken < |queue| && first + AllFragments(queue[..taken]) == fs + []
    ensures first + AllFragments(queue[..taken + 1]) == fs + Fragments(queue[taken], 0)
  {
    hide Fragments, AllFragments;
    assert queue[..taken + 1] == queue[..taken] + [queue[taken]];
    AllFragmentsSnoc(queue[..taken], queue[taken]);
    AppendAssoc(first, AllFragments(queue[..taken]), Fragments(queue[taken], 0));
    assert fs + [] == fs;
  }

  lemma {:induction false} KeepaliveHead()
    ensures ToU16(KEEPALIVE) == 0xffff
  {
  }

  /** When as many fragments have left as there are in all, all have left. */
  lemma {:induction false} AllLeft(queue: seq<seq<byte>>, taken: nat, first: seq<Fragment>,
                                   fs: seq<Fragment>, rest: seq<Fragment>)
    requires taken <= |queue| && first + AllFragments(queue[..taken]) == fs + rest
    requires |fs| >= |first| + |AllFragments(queue)| || (taken == |queue| && rest == [])
    requires forall i :: 0 <= i < |queue| ==> 0 < |queue[i]| <= MOST * PART
    ensures taken == |queue| && rest == [] && fs == first + AllFragments(queue)
  {
    hide Fragments;
    assert queue == queue[..taken] + queue[taken..];
    AllFragmentsAppend(queue[..taken], queue[taken..]);
    if taken < |queue| {
      FragmentStep(queue[taken], 0);
    }
    assert fs + [] == fs;
  }

  lemma {:induction false} AllFragmentsAppend(a: seq<seq<byte>>, b: seq<seq<byte>>)
    ensures AllFragments(a + b) == AllFragments(a) + AllFragments(b)
    decreases |a|
  {
    hide Fragments;
    if a == [] {
      assert a + b == b;
    } else {
      assert (a + b)[1..] == a[1..] + b;
      AllFragmentsAppend(a[1..], b);
    }
  }

  /** Within the bound the next header is not the keepalive, and what follows stays within it. */
  lemma {:induction false} PendingHeads(s: seq<byte>, idx: int)
    requires 0 <= idx && idx < 0x1_0000 && idx + |Fragments(s, idx)| <= MOST
    ensures Fragments(s, idx)[0].head != 0xffff && |Fragments(s, idx)[0].part| <= PART
    ensures |Fragments(s, idx)| > 1 ==> idx + 1 < MOST
  {
    OnlyFinalFlagged(s, idx, 0);
  }

  /** What the client's sink leaves of a delivery. */
  function ClientSink(b: seq<byte>): seq<byte> {
    Drain(b).rest
  }

  /** The events of a list of deliveries. */
  function Handled(got: seq<seq<byte>>): seq<Event> {
    if got == [] then [] else Drain(got[0]).events + Handled(got[1..])
  }

  class UdpIo {
    var open: bool
    var sending: bool     // txbuf_ is set
    var data: seq<byte>   // *txbuf_
    var txpos: nat
    var txIndex: int      // xh_.u16[0]
    var want: int         // xh_.u16[1]
    var xbuf: BufferRef

    ghost predicate Valid()
      reads this, xbuf
    {
      && xbuf.Valid() && 0 <= txIndex < 0x1_0000 && 0 <= want < 0x1_0000
      && (sending ==> txpos < |data|)
    }

    /** The fragments of the current message that are still to be sent. */
    ghost function Pending(): seq<Fragment>
      requires Valid()
      reads this, xbuf
    {
      if sending then Fragments(data[txpos..], txIndex) else []
    }

    ghost function State(): Rx
      requires Valid()
      reads this, xbuf, xbuf.mem
    {
      Rx(want, xbuf.Contents(), open)
    }

    constructor (capacity: nat)
      ensures Valid() && fresh(xbuf) && fresh(xbuf.mem) && xbuf.mem.Length == capacity
      ensures State() == FRESH && Pending() == []
    {
      open, sending, data, txpos, txIndex, want := true, false, [], 0, 0, 0;
      xbuf := new BufferRef(capacity);
    }

    method L2Close()
      requires Valid()
      modifies this`open, this`sending, xbuf`len
      ensures Valid() && !open && !sending && xbuf.Contents() == []
    {
      sending := false;
      xbuf.len := 0;
      open := false;
    }

    /** Takes the next message off the queue, as `prewait` does when none is being sent. */
    method Take(message: seq<byte>)
      requires Valid() && !sending && message != []
      modifies this`sending, this`data, this`txpos, this`txIndex
      ensures Valid() && sending && txIndex == 0 && Pending() == Fragments(message, 0) && State() == old(State())
    {
      sending, data, txpos, txIndex := true, message, 0, 0;
      assert data[0..] == data;
    }

    /**
     `l2send`: one call sends exactly the next fragment of the message; a short write of `slen`
     bytes closes the socket.
     */
    method L2Send(slen: int) returns (d: seq<byte>)
      requires Valid() && sending && open
      modifies this`open, this`sending, this`txpos, this`txIndex, xbuf`len
      ensures Valid() && HEAD <= |d| <= HEAD + PART && txIndex == (old(txIndex) + 1) % 0x1_0000
      ensures slen >= |d| ==> open && State() == old(State())
                              && old(Pending()) == [Fragment(ToU16(d), d[HEAD..])] + Pending()
                              && d[2..HEAD] == U16(want)
      ensures |old(Pending())| > 0 && |d| == HEAD + |old(Pending())[0].part|
      ensures slen < |d| ==> !open && !sending
    {
      var datalen := |data| - txpos;
      var xlen := Min(PART, datalen);
      var head0 := txIndex;
      txIndex := (txIndex + 1) % 0x1_0000;
      if xlen == datalen && head0 < LAST {
        head0 := head0 + LAST;
      }
      var part := data[txpos..txpos + xlen];
      d := U16(head0) + U16(want) + part;
      U16RoundTrip(head0, U16(want) + part);
      assert d == U16(head0) + (U16(want) + part) && d[HEAD..] == part;
      if slen < |d| {
        L2Close();
        return;
      }
      ghost var s := data[txpos..];
      assert part == s[..xlen] && s[xlen..] == data[txpos + xlen..];
      txpos := txpos + xlen;
      if txpos == |data| {
        sending := false;
        assert part == s;
      }
    }

    /** The rest of the message fits the index, so no header of it reads as a keepalive. */
    ghost predicate Bounded()
      requires Valid()
      reads this, xbuf
    {
      sending ==> txIndex + |Pending()| <= MOST
    }

    /** One more datagram behind `out`, which carries `fs`. */
    method SendNext(slens: seq<int>, out: seq<seq<byte>>, used: nat, ghost fs: seq<Fragment>)
      returns (all: seq<seq<byte>>, ghost gs: seq<Fragment>)
      requires Valid() && open && sending && Bounded() && Carries(out, fs) && KEEPALIVE !in out
      requires used == |fs| < |slens| && Sufficed(fs, slens)
      modifies this`open, this`sending, this`txpos, this`txIndex, xbuf`len
      ensures Valid() && Bounded() && Carries(all, gs) && KEEPALIVE !in all && Sufficed(gs, slens)
      ensures old(Pending()) != []
      ensures open ==> State() == old(State()) && |gs| == used + 1 && fs + old(Pending()) == gs + Pending()
      ensures open && sending ==> txIndex > 0
      ensures !open ==> !sending && gs == fs && slens[used] < HEAD + |old(Pending())[0].part|
    {
      hide Fragments, Carries, U16, ToU16;
      ghost var before := Pending();
      PendingHeads(data[txpos..], txIndex);
      var d := L2Send(slens[used]);
      if open {
        CarriesSnoc(out, fs, d, before[0]);
        KeepaliveHead();
        all, gs := out + [d], fs + [before[0]];
        AppendAssoc(fs, [before[0]], Pending());
      } else {
        all, gs := out, fs;
      }
    }

    /**
     The loop of `prewait` while the socket accepts sends, with the results `slens`: the current
     message and then the queued ones leave as their fragments, in order, one for each result. It
     stops only when the results are used up or nothing is left. The messages `queue[..taken]` have
     been taken off the queue. A short or failed send closes the socket.
     */
    method SendAll(queue: seq<seq<byte>>, slens: seq<int>)
      returns (out: seq<seq<byte>>, taken: nat, used: nat, ghost fs: seq<Fragment>, ghost lost: seq<Fragment>)
      requires Valid() && open && Bounded()
      requires forall i :: 0 <= i < |queue| ==> 0 < |queue[i]| <= MOST * PART
      modifies this`open, this`sending, this`data, this`txpos, this`txIndex, xbuf`len
      ensures Valid() && Bounded() && taken <= |queue| && used <= |slens|
      ensures open ==> State() == old(State()) && lost == [] && |fs| == used
      ensures old(Pending()) + AllFragments(queue[..taken]) == fs + (lost + Pending())
      ensures Carries(out, fs) && KEEPALIVE !in out && (used == 0 ==> out == [])
      ensures open ==> used == |slens| || (taken == |queue| && !sending)
      ensures taken > 0 && sending ==> txIndex > 0
      ensures Sufficed(fs, slens)
      ensures !open ==> used == |fs| + 1 && lost != [] && slens[|fs|] < HEAD + |lost[0].part|
    {
      hide Fragments, Carries, U16, AllFragments, ToU16, Sufficed;
      out, taken, used, fs, lost := [], 0, 0, [], [];
      CarriesNone();
      NothingSufficed(slens);
      ghost var first := Pending();
      assert queue[..0] == [] && first + [] == [] + Pending();
      while used < |slens| && open && (sending || taken < |queue|)
        invariant Valid() && Bounded() && taken <= |queue| && used <= |slens|
        invariant open ==> State() == old(State()) && lost == [] && |fs| == used
        invariant first + AllFragments(queue[..taken]) == fs + if open then Pending() else lost
        invariant Carries(out, fs) && KEEPALIVE !in out && (used == 0 ==> out == [])
        invariant Sufficed(fs, slens)
        invariant taken > 0 && sending && open ==> txIndex > 0 || used < |slens|
        invariant !open ==> used == |fs| + 1 && lost != [] && !sending && slens[|fs|] < HEAD + |lost[0].part|
        decreases |slens| - used, |queue| - taken
      {
        if !sending {
          TakeOne(queue, taken, first, fs);
          Take(queue[taken]);
          FragmentCount(queue[taken], 0, MOST);
          taken := taken + 1;
        } else {
          ghost var left := Pending();
          out, fs := SendNext(slens, out, used, fs);
          used := used + 1;
          if !open {
            lost := left;
          }
        }
      }
      assert [] + Pending() == Pending() && lost + [] == lost;
    }

    /**
     `prewait`: whatever the loop sends; with full sends and results enough everything leaves. A
     keepalive goes out exactly when the connection has been quiet and nothing else was sent.
     */
    method Prewait(queue: seq<seq<byte>>, slens: seq<int>, quiet: bool)
      returns (out: seq<seq<byte>>, taken: nat, used: nat, ghost fs: seq<Fragment>, ghost lost: seq<Fragment>)
      requires Valid() && open && Bounded()
      requires forall i :: 0 <= i < |queue| ==> 0 < |queue[i]| <= MOST * PART
      modifies this`open, this`sending, this`data, this`txpos, this`txIndex, xbuf`len
      ensures Valid() && Bounded() && taken <= |queue| && used <= |slens|
      ensures open ==> State() == old(State()) && lost == [] && |fs| == used
      ensures old(Pending()) + AllFragments(queue[..taken]) == fs + (lost + Pending())
      ensures Carries(out, fs) && Sufficed(fs, slens)
      ensures !open ==> used == |fs| + 1 && lost != [] && slens[|fs|] < HEAD + |lost[0].part|
      ensures open ==> used == |slens| || (taken == |queue| && !sending)
      ensures taken > 0 && sending ==> txIndex > 0
      ensures open && |slens| >= |old(Pending())| + |AllFragments(queue)|
              ==> taken == |queue| && !sending && fs == old(Pending()) + AllFragments(queue)
      ensures KEEPALIVE in out <==> quiet && used == 0
      ensures KEEPALIVE in out ==> out == [KEEPALIVE]
    {
      hide Fragments, Carries, U16, AllFragments, ToU16;
      ghost var first := Pending();
      out, taken, used, fs, lost := SendAll(queue, slens);
      if open && |slens| >= |first| + |AllFragments(queue)| {
        assert lost + Pending() == Pending();
        AllLeft(queue, taken, first, fs, Pending());
        NothingPending();
      }
      if used == 0 && quiet {
        CarriesKeepalive(out, fs);
        out := out + [KEEPALIVE];
      }
    }

    /** A message being sent has fragments left. */
    lemma {:induction false} NothingPending()
      requires Valid() && Pending() == []
      ensures !sending
    {
    }

    /**
     `l2recv_one` on a datagram `d`. The new state is the step of the specification, and the
     events are those of the delivery it makes, if any.
     */
    method L2RecvOne(d: seq<byte>) returns (events: seq<Event>)
      requires Valid() && open
      modifies this`open, this`sending, this`want, xbuf`len, xbuf.mem
      ensures Valid()
      ensures var r := OnDatagram(xbuf.mem.Length, old(State()), d, ClientSink);
              State() == r.rx && events == Handled(r.got)
      ensures if open then Pending() == old(Pending()) else !sending
    {
      events := [];
      var space := xbuf.mem.Length - xbuf.len;
      var r := if HEAD + space < |d| then d[..HEAD + space] else d;
      if |r| == 0 {
        return;
      }
      if |r| < HEAD {
        L2Close();
        return;
      }
      if ToU16(r) == 0xffff {
        if |r| > 8 {
          L2Close();
        }
        return;
      }
      ghost var before := xbuf.Contents();
      var head, part := ToU16(r), r[HEAD..];
      Place(part);
      events := Reassemble(head, |part|, before, part);
    }

    /** The payload a read has put behind the filled part of the buffer. */
    method Place(part: seq<byte>)
      requires Valid() && |part| <= xbuf.mem.Length - xbuf.len
      modifies xbuf`len, xbuf.mem
      ensures Valid() && xbuf.Contents() == old(xbuf.Contents()) + part
    {
      forall i | 0 <= i < |part| {
        xbuf.mem[xbuf.len + i] := part[i];
      }
      xbuf.Commit(|part|);
    }

    /** The part of `l2recv_one` behind the read: continue, start afresh, or give up the message. */
    method Reassemble(head: int, rlen: nat, ghost before: seq<byte>, ghost part: seq<byte>)
      returns (events: seq<Event>)
      requires Valid() && open && 0 <= head < 0x1_0000 && rlen == |part| && xbuf.Contents() == before + part
      modifies this`want, xbuf`len, xbuf.mem
      ensures Valid()
      ensures var r := OnFragment(Rx(old(want), before, true), Fragment(head, part), ClientSink);
              State() == r.rx && events == Handled(r.got)
    {
      hide Drain;
      events := [];
      if head % LAST != want {
        want := 0;
        if head % LAST != 0 {
          xbuf.Consume(xbuf.len);
          assert xbuf.Contents() == [];
          return;
        }
        xbuf.Consume(xbuf.len - rlen);
        assert xbuf.Contents() == part;
      }
      want := (want + 1) % 0x1_0000;
      if head >= LAST {
        want := 0;
        ghost var buf := xbuf.Contents();
        events := ProcessRecvd(xbuf);
        assert Handled([buf]) == Drain(buf).events + [] == events;
      }
    }

    /**
     `l2recv` over the datagrams at hand: the run of the specification, event for event. The last
     read finds nothing more, or fails and closes the socket.
     */
    method L2Recv(w: seq<seq<byte>>, fails: bool) returns (events: seq<Event>)
      requires Valid()
      modifies this`open, this`sending, this`want, xbuf`len, xbuf.mem
      ensures Valid()
      ensures var r := Run(xbuf.mem.Length, old(State()), w, ClientSink);
              events == Handled(r.got) && State() == if fails && r.rx.open then Rx(r.rx.want, [], false) else r.rx
    {
      hide OnDatagram;
      events := [];
      ghost var got: seq<seq<byte>> := [];
      ghost var all := Run(xbuf.mem.Length, State(), w, ClientSink);
      var i := 0;
      while i < |w| && open
        invariant Valid() && i <= |w| && events == Handled(got)
        invariant var r := Run(xbuf.mem.Length, State(), w[i..], ClientSink);
                  all == Step(r.rx, got + r.got)
      {
        ghost var st := State();
        RunOne(xbuf.mem.Length, st, w[i..], ClientSink);
        var evs := L2RecvOne(w[i]);
        ghost var a := OnDatagram(xbuf.mem.Length, st, w[i], ClientSink);
        HandledAppend(got, a.got);
        AppendAssoc(got, a.got, Run(xbuf.mem.Length, State(), w[i + 1..], ClientSink).got);
        got, events := got + a.got, events + evs;
        i := i + 1;
      }
      if i < |w| {
        ClosedRun(xbuf.mem.Length, State(), w[i..], ClientSink);
      } else {
        assert w[i..] == [];
      }
      assert got + [] == got;
      if open && fails {
        L2Close();
      }
    }
  }

  lemma {:induction false} RunOne(cap: int, rx: Rx, w: seq<seq<byte>>, left: Sink)
    requires w != []
    ensures var a := OnDatagram(cap, rx, w[0], left);
            var b := Run(cap, a.rx, w[1..], left);
            Run(cap, rx, w, left) == Step(b.rx, a.got + b.got)
  {
  }

  lemma {:induction false} ClosedRun(cap: int, rx: Rx, w: seq<seq<byte>>, left: Sink)
    requires !rx.open
    ensures Run(cap, rx, w, left) == Step(rx, [])
    decreases |w|
  {
    if w != [] {
      ClosedRun(cap, rx, w[1..], left);
    }
  }

  lemma {:induction false} HandledAppend(a: seq<seq<byte>>, b: seq<seq<byte>>)
    ensures Handled(a + b) == Handled(a) + Handled(b)
    decreases |a|
  {
    hide Drain;
    if a == [] {
      assert a + b == b;
    } else {
      assert (a + b)[1..] == a[1..] + b;
      HandledAppend(a[1..], b);
    }
  }

  // ----- no loss: every queued message -----

  function Unharmed(queue: seq<seq<byte>>): seq<Sent> {
    if queue == [] then []
    else [Transmission(queue[0], seq(|Fragments(queue[0], 0)|, _ => true))] + Unharmed(queue[1..])
  }

  lemma {:induction false} UnharmedChannel(queue: seq<seq<byte>>)
    ensures Channel(Unharmed(queue)) == AllFragments(queue) && Complete(Unharmed(queue)) == queue
    decreases |queue|
  {
    hide Fragments, Surviving;
    if queue != [] {
      UnharmedChannel(queue[1..]);
      var s := Unharmed(queue)[0];
      assert Unharmed(queue)[1..] == Unharmed(queue[1..]);
      AllSurvive(Fragments(s.msg, 0), s.keep);
      assert AllKept(s.keep);
    }
  }

  /**
   Round trip: when the datagrams carry the fragments of a list of messages without loss, with
   keepalives anywhere between, the deliveries are that list.
   */
  lemma {:induction false} RoundTrip(cap: nat, queue: seq<seq<byte>>, w: seq<seq<byte>>, left: Sink)
    requires forall b :: |left(b)| <= |b|
    requires forall i :: 0 <= i < |queue| ==>
               0 < |queue[i]| <= MOST * PART && |queue[i]| <= cap && left(queue[i]) == []
    requires Carries(w, AllFragments(queue))
    ensures Run(cap, FRESH, w, left).got == queue
  {
    UnharmedChannel(queue);
    UnharmedAdmissible(cap, queue, left);
    WireLossSafe(cap, Unharmed(queue), w, left);
  }

  lemma {:induction false} UnharmedAdmissible(cap: nat, queue: seq<seq<byte>>, left: Sink)
    requires forall i :: 0 <= i < |queue| ==>
               0 < |queue[i]| <= MOST * PART && |queue[i]| <= cap && left(queue[i]) == []
    ensures forall s :: s in Unharmed(queue) ==> Admissible(s, cap, left)
    decreases |queue|
  {
    if queue != [] {
      hide Fragments;
      UnharmedAdmissible(cap, queue[1..], left);
      var s: Sent := Transmission(queue[0], seq(|Fragments(queue[0], 0)|, _ => true));
      FragmentStep(s.msg, 0);
      LeadAll(s.keep);
      assert Admissible(s, cap, left);
    }
  }

  // ----- end to end -----

  /** An encoder frame, and which fragments of its message the channel lets through. */
  datatype AnyLossy = Lossy(frame: EncodedFrame, keep: seq<bool>) {
    function Sent(): Transmission { Transmission(Message(frame), keep) }
  }

  type LossyFrame = f: AnyLossy | |f.keep| == |Fragments(Message(f.frame), 0)| ghost witness FrameWitness()

  ghost function FrameWitness(): (f: AnyLossy)
    ensures |f.keep| == |Fragments(Message(f.frame), 0)|
  {
    var frame: EncodedFrame := FrameWithInfo(START_CODE, [0, 0, 0, 0, 0, 0, 0, 0]);
    Lossy(frame, seq(|Fragments(Message(frame), 0)|, _ => true))
  }

  function Transmissions(fs: seq<LossyFrame>): seq<Sent> {
    if fs == [] then [] else [fs[0].Sent()] + Transmissions(fs[1..])
  }

  /** The frames none of whose fragments is lost. */
  function Survivors(fs: seq<LossyFrame>): seq<EncodedFrame> {
    if fs == [] then []
    else (if AllKept(fs[0].keep) then [fs[0].frame] else []) + Survivors(fs[1..])
  }

  /** The client's sink takes a message of the server whole, as a frame and its `PadInfo`. */
  lemma {:induction false} ClientTakesMessage(f: EncodedFrame)
    ensures Drain(Message(f)) == Drained([Frame(f.bytes), Feedback(U32(PAD_MARK) + f.info)], [])
    ensures |Message(f)| == |f.bytes| + 12
  {
    var rs: seq<Record> := [Video(f.bytes[4..]), Pad(f.info)];
    TwoRecords(rs[0], rs[1]);
    TakenAll(rs);
    DrainPrefix(rs, Message(f));
    assert rs[..2] == rs && START_CODE + f.bytes[4..] == f.bytes;
  }

  lemma {:induction false} HandledComplete(fs: seq<LossyFrame>)
    ensures Handled(Complete(Transmissions(fs))) == Seen(Survivors(fs))
    decreases |fs|
  {
    hide Drain, Message, Stream, AllKept, Fragments;
    if fs != [] {
      var f := fs[0];
      HandledComplete(fs[1..]);
      ClientTakesMessage(f.frame);
      assert Transmissions(fs)[1..] == Transmissions(fs[1..]);
      if AllKept(f.keep) {
        HandledAppend([Message(f.frame)], Complete(Transmissions(fs[1..])));
        assert Handled([Message(f.frame)]) == Drain(Message(f.frame)).events + [];
        assert ([f.frame] + Survivors(fs[1..]))[1..] == Survivors(fs[1..]);
      } else {
        assert [] + Complete(Transmissions(fs[1..])) == Complete(Transmissions(fs[1..]));
        assert [] + Survivors(fs[1..]) == Survivors(fs[1..]);
      }
    }
  }

  lemma {:induction false} TransmissionsSendable(fs: seq<LossyFrame>)
    requires forall f :: f in fs ==> |f.frame.bytes| + 12 <= MOST * PART
    ensures forall s :: s in Transmissions(fs) ==> Sendable(s, ClientSink)
    decreases |fs|
  {
    hide Drain, Message, AllKept, Fragments;
    if fs != [] {
      assert fs[0] in fs;
      ClientTakesMessage(fs[0].frame);
      TransmissionsSendable(fs[1..]);
    }
  }

  /**
   From encoder to file, over every clean run of the datagram path: whatever is lost and
   wherever keepalives stand, the client writes exactly the frames none of whose fragments is
   lost, in order and with their start codes, and returns exactly their records.
   */
  lemma {:induction false} FramesUnderLoss(fs: seq<LossyFrame>, cap: nat, w: seq<seq<byte>>)
    requires forall f :: f in fs ==> |f.frame.bytes| + 12 <= MOST * PART
    requires Clean(cap, Wait(0, 0), Transmissions(fs)) && Carries(w, Channel(Transmissions(fs)))
    ensures Handled(Run(cap, FRESH, w, ClientSink).got) == Seen(Survivors(fs))
  {
    TransmissionsSendable(fs);
    forall b ensures |ClientSink(b)| <= |b| {
      DrainShrinks(b);
    }
    WireDeliversExactly(cap, Transmissions(fs), w, ClientSink);
    HandledComplete(fs);
  }

  lemma {:induction false} DrainShrinks(b: seq<byte>)
    ensures |Drain(b).rest| <= |b|
    decreases |b|
  {
    if b != [] {
      var u := Unpack(b);
      DrainStep(b, u);
      if u.len > 0 {
        DrainShrinks(u.buf[u.len..]);
      }
    }
  }
}
