/**
 Reception statistics of android/jni-01/hgs-rtph264.cpp: what `statis` counts per packet and
 what `rreport` reports (section 6.4.1 and appendices A.3 and A.8 of RFC 3550), in the
 integer widths of the source.
 */
module RtcpStats {

  const TWO16 := 0x1_0000
  const TWO24 := 0x100_0000
  const TWO32 := 0x1_0000_0000

  function Wrap32(x: int): int { x % TWO32 }

  function Signed32(x: int): int {
    if x % TWO32 < 0x8000_0000 then x % TWO32 else x % TWO32 - TWO32
  }

  /** Division as in the source language: towards zero. */
  function CDiv(x: int, y: int): int
    requires y != 0
  {
    if (x < 0) == (y < 0) then Abs(x) / Abs(y) else -(Abs(x) / Abs(y))
  }

  function Abs(x: int): int { if x < 0 then -x else x }
  function Max(x: int, y: int): int { if x < y then y else x }

  datatype Stats = Stats(
    baseSeq: int, maxSeq: int, cycles: int, received: int,
    expectedPrior: int, receivedPrior: int, transit: int, jitter: int)
  {
    /** The fields hold what their types can. */
    predicate InRange() {
      && 0 <= baseSeq < TWO16 && 0 <= maxSeq < TWO16 && 0 <= cycles < TWO16
      && 0 <= received < TWO32 && 0 <= expectedPrior < TWO32 && 0 <= receivedPrior < TWO32
      && -0x8000_0000 <= transit < 0x8000_0000 && 0 <= jitter < TWO32
    }

    /** The highest number seen, with the cycle count above its 16 bits. */
    function Extended(): int { cycles * TWO16 + maxSeq }

    /** A packet that came late by less than 0x0fff is left out of everything. */
    predicate Counts(seqno: int) {
      cycles == 0 || !(seqno < maxSeq && maxSeq - seqno < 0x0fff)
    }

    function CountSeq(seqno: int): Stats {
      if cycles == 0 then this.(cycles := 1, baseSeq := seqno, maxSeq := seqno, received := 1)
      else this.(cycles := if seqno < maxSeq then (cycles + 1) % TWO16 else cycles,
                 maxSeq := seqno, received := Wrap32(received + 1))
    }

    function Transit(timestamp: int, now: int): int {
      Signed32(Max(now, timestamp) - timestamp)
    }

    function CountJitter(t: int): Stats {
      var d := Abs(Signed32(t - transit));
      this.(transit := t, jitter := Wrap32(jitter + d - (jitter + 8) % TWO32 / 16))
    }

    function Statis(seqno: int, timestamp: int, now: int): Stats {
      if Counts(seqno) then CountSeq(seqno).CountJitter(Transit(timestamp, now)) else this
    }

    function Expected(): int { Wrap32(Extended() - baseSeq + 1) }

    function Rreport(): (Stats, Block) {
      var expected := Expected();
      var expectedInterval := Signed32(expected - expectedPrior);
      var receivedInterval := Signed32(received - receivedPrior);
      var lostInterval := Signed32(expectedInterval - receivedInterval);
      var fraction :=
        if expectedInterval == 0 || lostInterval <= 0 then 0
        else CDiv(Signed32(lostInterval * 256), expectedInterval) % 256;
      (this.(expectedPrior := expected, receivedPrior := received),
       Block(fraction, Signed32(expected - received) % TWO24, Extended(), jitter / 16))
    }

    // ----- what every run keeps -----

    /** Nothing counted yet, or at most one packet counted per number passed since the first. */
    predicate Sound() {
      && InRange()
      && (if cycles == 0 then received == expectedPrior == receivedPrior == 0
          else 1 <= received <= Extended() - (TWO16 + baseSeq) + 1 && Extended() - baseSeq + 1 < TWO32)
      && receivedPrior <= received
      && (cycles != 0 ==>
            && received - receivedPrior <= Extended() - baseSeq + 1 - expectedPrior
            && (expectedPrior < Extended() - baseSeq + 1 ==> receivedPrior < received))
    }

    /** Neither the cycle counter nor the number of packets expected wraps. */
    predicate Fits(seqno: int) {
      && 0 <= seqno < TWO16
      && (cycles != 0 && Counts(seqno) ==>
            (seqno < maxSeq ==> cycles + 1 < TWO16) && CountSeq(seqno).Extended() - baseSeq + 1 < TWO32)
    }

    /** The number counted last comes again. */
    predicate Repeats(seqno: int) {
      cycles != 0 && seqno == maxSeq
    }

    predicate Regular(seqno: int) {
      Fits(seqno) && !Repeats(seqno)
    }
  }

  /** The figures of a report block; the cumulative loss has 24 bits. */
  datatype Block = Block(fraction: int, cumulative: int, highest: int, jitter: int)

  const ZEROED := Stats(0, 0, 0, 0, 0, 0, 0, 0)

  class RtpStatisInfo {
    var baseSeq: int
    var maxSeq: int
    var cycles: int
    var received: int
    var expectedPrior: int
    var receivedPrior: int
    var transit: int
    var jitter: int

    ghost function State(): Stats
      reads this
    {
      Stats(baseSeq, maxSeq, cycles, received, expectedPrior, receivedPrior, transit, jitter)
    }

    constructor ()
      ensures State() == ZEROED
    {
      baseSeq, maxSeq, cycles, received := 0, 0, 0, 0;
      expectedPrior, receivedPrior, transit, jitter := 0, 0, 0, 0;
    }

    method Statis(seqno: int, timestamp: int, now: int)
      modifies this
      ensures State() == old(State()).Statis(seqno, timestamp, now)
    {
      if cycles == 0 {
        cycles := 1;
        baseSeq, maxSeq := seqno, seqno;
        received := 1;
      } else {
        if seqno < maxSeq {
          if maxSeq - seqno < 0x0fff {
            return;
          }
          cycles := (cycles + 1) % TWO16;
        }
        maxSeq := seqno;
        received := Wrap32(received + 1);
      }
      var arrival := Max(now, timestamp);
      var t := Signed32(arrival - timestamp);
      var d := Signed32(t - transit);
      transit := t;
      if d < 0 {
        d := -d;
      }
      jitter := Wrap32(jitter + d - (jitter + 8) % TWO32 / 16);
    }

    /** The precondition is what the source asserts; `AssertionHoldsExactly` says when it holds. */
    method Rreport() returns (b: Block)
      requires received > 0 && received <= State().Expected()
      modifies this
      ensures (State(), b) == old(State()).Rreport()
    {
      hide Wrap32, Signed32, CDiv;
      var extendedMax := cycles * TWO16 + maxSeq;
      var expected := Wrap32(extendedMax - baseSeq + 1);
      assert received <= expected;
      var lost := Signed32(expected - received);
      var expectedInterval := Signed32(expected - expectedPrior);
      expectedPrior := expected;
      var receivedInterval := Signed32(received - receivedPrior);
      receivedPrior := received;
      var lostInterval := Signed32(expectedInterval - receivedInterval);
      var fraction := 0;
      if expectedInterval == 0 || lostInterval <= 0 {
        fraction := 0;
      } else {
        fraction := CDiv(Signed32(lostInterval * 256), expectedInterval) % 256;
      }
      b := Block(fraction, lost % TWO24, extendedMax, jitter / 16);
    }
  }

  // ----- loss counting -----

  lemma {:induction false} JitterLeavesCounts(s: Stats, t: int)
    ensures var r := s.CountJitter(t);
            r == s.(transit := r.transit, jitter := r.jitter)
            && -0x8000_0000 <= Signed32(t) < 0x8000_0000 && 0 <= r.jitter < TWO32
  {
  }

  /** A counted packet raises the extended number, unless it repeats the number counted last. */
  lemma {:induction false} CountedRaisesExactly(s: Stats, seqno: int, timestamp: int, now: int)
    requires s.InRange() && 0 <= seqno < TWO16 && s.cycles != 0 && (seqno < s.maxSeq ==> s.cycles + 1 < TWO16)
    requires s.Counts(seqno)
    ensures s.Statis(seqno, timestamp, now).Extended() > s.Extended() <==> seqno != s.maxSeq
    ensures s.Statis(seqno, timestamp, now).Extended() >= s.Extended()
  {
  }

  /**
   Which packets are counted: all but those late by less than 0x0fff numbers, which change
   nothing at all.
   */
  lemma {:induction false} CountedExactly(s: Stats, seqno: int, timestamp: int, now: int)
    requires s.InRange() && 0 <= seqno < TWO16 && s.received + 1 < TWO32
    ensures var t := s.Statis(seqno, timestamp, now);
            if s.cycles != 0 && 0 < s.maxSeq - seqno < 0x0fff then t == s
            else t.received == (if s.cycles == 0 then 1 else s.received + 1) && t.maxSeq == seqno
  {
  }

  lemma {:induction false} StatisKeepsSound(s: Stats, seqno: int, timestamp: int, now: int)
    requires s.Sound() && s.Regular(seqno)
    ensures s.Statis(seqno, timestamp, now).Sound()
  {
    if s.Counts(seqno) {
      var r := s.CountSeq(seqno);
      assert r.Sound();
      JitterLeavesCounts(r, r.Transit(timestamp, now));
    }
  }

  lemma {:induction false} ReportKeepsSound(s: Stats)
    requires s.Sound() && s.received > 0
    ensures s.Rreport().0.Sound()
  {
    hide Signed32, CDiv;
  }

  /** In a sound state received and expected do not wrap, and neither does an interval below 2^31. */
  lemma {:induction false} NothingWraps(s: Stats)
    requires s.Sound() && s.received > 0
    ensures s.Expected() == s.Extended() - s.baseSeq + 1 && s.received + TWO16 <= s.Expected() < TWO32
    ensures 0 <= s.Expected() - s.expectedPrior && 0 <= s.received - s.receivedPrior
    ensures s.received - s.receivedPrior <= s.Expected() - s.expectedPrior
    ensures s.Expected() > s.expectedPrior ==> s.received > s.receivedPrior
    ensures s.Expected() - s.expectedPrior < 0x8000_0000 ==>
              && Signed32(s.Expected() - s.expectedPrior) == s.Expected() - s.expectedPrior
              && Signed32(s.received - s.receivedPrior) == s.received - s.receivedPrior
  {
  }

  /** A part of an interval in 256ths. */
  function Share(part: int, interval: int): int
    requires interval > 0
  {
    part * 256 / interval
  }

  lemma {:induction false} FractionOf(lost: int, interval: int)
    requires 0 <= lost < interval < 0x8000_0000 && lost < 0x80_0000
    ensures Signed32(lost) == lost && CDiv(Signed32(lost * 256), interval) % 256 == Share(lost, interval) < 256
  {
    ShareFits(lost, interval);
    assert Signed32(lost * 256) == lost * 256;
  }

  /**
   The report of a sound state: no more received than expected (by the whole offset of one cycle
   that the counter carries from the start), nothing lost in a negative number, and the fraction
   is the share of the interval in 256ths, below 256 although it is stored in one octet. The
   bounds are those of the signed numbers: the interval fits one, and so does the loss when it
   is shifted by 8.
   */
  lemma {:induction false} ReportSound(s: Stats)
    requires s.Sound() && s.received > 0
    requires s.Expected() - s.expectedPrior < 0x8000_0000
    requires s.Expected() - s.expectedPrior - (s.received - s.receivedPrior) < 0x80_0000
    ensures var b := s.Rreport().1;
            var interval := s.Expected() - s.expectedPrior;
            var lost := interval - (s.received - s.receivedPrior);
            && s.received + TWO16 <= s.Expected() && s.Expected() == s.Extended() - s.baseSeq + 1
            && 0 <= lost && 0 <= b.fraction < 256
            && (interval == 0 ==> b.fraction == 0)
            && (interval > 0 ==> lost < interval && b.fraction == Share(lost, interval))
            && (b.fraction > 0 <==> 0 < interval <= 256 * lost)
  {
    NothingWraps(s);
    var interval := s.Expected() - s.expectedPrior;
    var lost := interval - (s.received - s.receivedPrior);
    hide Stats.Sound, Stats.Expected, Signed32, CDiv, Share;
    if interval > 0 {
      FractionOf(lost, interval);
      ZeroShare(lost, interval);
    } else {
      assert lost == 0;
    }
  }

  /**
   What the offset does to every report: the cumulative loss is a whole cycle above the packets
   that are missing, in the 24 bits of its field.
   */
  lemma {:induction false} EveryReportOverstates(s: Stats)
    requires s.Sound() && s.received > 0
    ensures var missing := s.Extended() - (TWO16 + s.baseSeq) + 1 - s.received;
            && missing >= 0 && s.Rreport().1.cumulative == (missing + TWO16) % TWO24
            && (missing + TWO16 < TWO24 ==> s.Rreport().1.cumulative == missing + TWO16)
  {
    NothingWraps(s);
    var lost := s.Expected() - s.received;
    assert Signed32(lost) % TWO24 == lost % TWO24;
  }

  /**
   And to the fraction of the first one: a whole cycle is counted as expected and as lost. It
   shows a loss exactly when at most 256 times what it counts as lost was expected; with nothing
   missing, that is until 255 cycles have been received.
   */
  lemma {:induction false} FirstReportOverstates(s: Stats)
    requires s.Sound() && s.received > 0 && s.expectedPrior == 0 && s.receivedPrior == 0
    requires s.Expected() < 0x8000_0000 && s.Expected() - s.received < 0x80_0000
    ensures var expected, b := s.Extended() - (TWO16 + s.baseSeq) + 1, s.Rreport().1;
            && b.fraction == Share(TWO16 + expected - s.received, TWO16 + expected)
            && (b.fraction > 0 <==> TWO16 + expected <= 256 * (TWO16 + expected - s.received))
            && (expected == s.received ==> (b.fraction > 0 <==> s.received <= 255 * TWO16))
  {
    ReportSound(s);
  }

  lemma {:induction false} ZeroShare(part: int, interval: int)
    requires 0 <= part && 0 < interval
    ensures Share(part, interval) > 0 <==> interval <= part * 256
  {
    DivZero(part * 256, interval);
    assert Share(part, interval) >= 0;
  }

  lemma {:induction false} DivZero(x: int, y: int)
    requires 0 <= x && 0 < y
    ensures x / y == 0 <==> x < y
  {
    if x / y == 0 {
      assert x == y * 0 + x % y;
    }
  }

  lemma {:induction false} ShareFits(lost: int, interval: int)
    requires 0 <= lost < interval
    ensures 0 <= Share(lost, interval) < 256
  {
    assert lost * 256 < 256 * interval;
  }

  /** What the receiver does over time: packets arrive, reports are made. */
  datatype Event = Packet(seqno: int, timestamp: int, now: int) | Report

  function Next(s: Stats, e: Event): Stats {
    match e
    case Packet(q, t, n) => s.Statis(q, t, n)
    case Report => if s.received > 0 then s.Rreport().0 else s
  }

  /** A run without consecutive duplicates and without a wrap of the cycle counter. */
  ghost predicate Runs(s: Stats, es: seq<Event>, t: Stats)
    decreases |es|
  {
    if es == [] then s == t
    else (es[0].Packet? ==> s.Regular(es[0].seqno)) && Runs(Next(s, es[0]), es[1..], t)
  }

  /** Soundness over every such run, whatever is lost, late or reordered. */
  lemma {:induction false} RunsAreSound(s: Stats, es: seq<Event>, t: Stats)
    requires s.Sound() && Runs(s, es, t)
    ensures t.Sound() && t.Extended() >= s.Extended()
    decreases |es|
  {
    hide Stats.Statis, Stats.Rreport, Stats.Sound;
    if es != [] {
      StepIsSound(s, es[0]);
      RunsAreSound(Next(s, es[0]), es[1..], t);
    }
  }

  lemma {:induction false} StepIsSound(s: Stats, e: Event)
    requires s.Sound() && (e.Packet? ==> s.Regular(e.seqno))
    ensures Next(s, e).Sound() && Next(s, e).Extended() >= s.Extended()
  {
    match e
    case Packet(q, t, n) =>
      StatisKeepsSound(s, q, t, n);
    case Report =>
      if s.received > 0 {
        ReportKeepsSound(s);
      }
  }

  /** And so for every run from the start: what its reports say. */
  lemma {:induction false} ReportsFromTheStart(es: seq<Event>, t: Stats)
    requires Runs(ZEROED, es, t) && t.received > 0
    ensures t.Sound() && t.received + TWO16 <= t.Expected()
    ensures t.Rreport().1.cumulative == (t.Extended() - t.baseSeq + 1 - t.received) % TWO24
    ensures var interval := t.Expected() - t.expectedPrior;
            var lost := interval - (t.received - t.receivedPrior);
            0 < interval < 0x8000_0000 && lost < 0x80_0000 ==> t.Rreport().1.fraction == Share(lost, interval) < 256
  {
    assert ZEROED.Sound();
    RunsAreSound(ZEROED, es, t);
    NothingWraps(t);
    EveryReportOverstates(t);
    var interval := t.Expected() - t.expectedPrior;
    if 0 < interval < 0x8000_0000 && interval - (t.received - t.receivedPrior) < 0x80_0000 {
      ReportSound(t);
    }
  }

  // ----- runs with consecutive duplicates -----

  ghost predicate AnyRuns(s: Stats, es: seq<Event>, t: Stats)
    decreases |es|
  {
    if es == [] then s == t
    else (es[0].Packet? ==> s.Fits(es[0].seqno)) && AnyRuns(Next(s, es[0]), es[1..], t)
  }

  /** The packet repeats the one counted last. */
  function Duplicate(s: Stats, e: Event): nat {
    if e.Packet? && s.Repeats(e.seqno) then 1 else 0
  }

  /** How many packets repeat the one counted last. */
  ghost function Duplicates(s: Stats, es: seq<Event>): nat
    decreases |es|
  {
    if es == [] then 0 else Duplicate(s, es[0]) + Duplicates(Next(s, es[0]), es[1..])
  }

  /** The numbers between the packet counted last and this one, going up and round. */
  function Gap(s: Stats, e: Event): int {
    if e.Packet? && s.cycles != 0 && s.Counts(e.seqno) && !s.Repeats(e.seqno)
    then (e.seqno - s.maxSeq) % TWO16 - 1
    else 0
  }

  /** How many numbers have been skipped. */
  ghost function Skipped(s: Stats, es: seq<Event>): int
    decreases |es|
  {
    if es == [] then 0 else Gap(s, es[0]) + Skipped(Next(s, es[0]), es[1..])
  }

  /** The numbers passed less the packets counted. */
  function Balance(s: Stats): int {
    if s.cycles == 0 then 0 else s.Extended() - (TWO16 + s.baseSeq) + 1 - s.received
  }

  /** What a run keeps whatever is repeated; `more` events are still to come. */
  ghost predicate Counting(s: Stats, more: nat) {
    && s.InRange() && s.received + more < TWO32 && s.receivedPrior <= s.received
    && if s.cycles == 0 then s.received == s.expectedPrior == 0
       else
         var expected := s.Extended() - s.baseSeq + 1;
         s.received > 0 && s.expectedPrior <= expected < TWO32
         && (s.expectedPrior < expected ==> s.receivedPrior < s.received)
  }

  lemma {:induction false} CountingStep(s: Stats, e: Event, more: nat)
    requires Counting(s, more + 1) && (e.Packet? ==> s.Fits(e.seqno))
    ensures Counting(Next(s, e), more)
    ensures Gap(s, e) >= 0 && Balance(Next(s, e)) == Balance(s) + Gap(s, e) - Duplicate(s, e)
  {
    if e.Packet? && s.Counts(e.seqno) {
      PacketCounts(s, e, more);
    } else if e.Report? && s.received > 0 {
      ReportCounts(s, more);
    }
  }

  /** The jitter of a packet has no part in what it counts. */
  lemma {:induction false} CountedState(s: Stats, e: Event)
    requires s.InRange() && e.Packet? && 0 <= e.seqno < TWO16 && s.Counts(e.seqno)
    ensures var r, n := s.CountSeq(e.seqno), Next(s, e);
            n.InRange() && n == r.(transit := n.transit, jitter := n.jitter)
  {
    var r := s.CountSeq(e.seqno);
    JitterLeavesCounts(r, r.Transit(e.timestamp, e.now));
    hide Wrap32, Abs;
  }

  lemma {:induction false} PacketCounts(s: Stats, e: Event, more: nat)
    requires Counting(s, more + 1) && e.Packet? && s.Fits(e.seqno) && s.Counts(e.seqno)
    ensures Counting(Next(s, e), more)
    ensures Gap(s, e) >= 0 && Balance(Next(s, e)) == Balance(s) + Gap(s, e) - Duplicate(s, e)
  {
    hide Next;
    CountedState(s, e);
  }

  lemma {:induction false} ReportCounts(s: Stats, more: nat)
    requires Counting(s, more + 1) && s.received > 0
    ensures Counting(s.Rreport().0, more) && Balance(s.Rreport().0) == Balance(s)
  {
    hide Signed32, CDiv;
  }

  lemma {:induction false} CountingRun(s: Stats, es: seq<Event>, t: Stats)
    requires Counting(s, |es|) && AnyRuns(s, es, t)
    ensures Counting(t, 0)
    ensures Skipped(s, es) >= 0 && Balance(t) == Balance(s) + Skipped(s, es) - Duplicates(s, es)
    decreases |es|
  {
    hide Counting, Balance, Next, Duplicate, Gap, Stats.Fits;
    if es != [] {
      CountingStep(s, es[0], |es| - 1);
      CountingRun(Next(s, es[0]), es[1..], t);
    }
  }

  /**
   What the source asserts of every report, over every run from the start with whatever
   duplicates: it holds exactly while the duplicates are no more than the numbers skipped and the
   cycle that the base number does not carry.
   */
  lemma {:induction false} AssertionHoldsExactly(es: seq<Event>, t: Stats)
    requires AnyRuns(ZEROED, es, t) && |es| < TWO32 && t.received > 0
    ensures Skipped(ZEROED, es) >= 0
    ensures t.received <= t.Expected() <==> Duplicates(ZEROED, es) <= Skipped(ZEROED, es) + TWO16
  {
    CountingRun(ZEROED, es, t);
  }

  /** The number of the packet counted last, `q` if there is none, and how often the numbers have gone round. */
  ghost function LastNumber(s: Stats, es: seq<Event>, q: int): int
    decreases |es|
  {
    if es == [] then q
    else LastNumber(Next(s, es[0]), es[1..], if es[0].Packet? && s.Counts(es[0].seqno) then es[0].seqno else q)
  }

  ghost function Rounds(s: Stats, es: seq<Event>): nat
    decreases |es|
  {
    if es == [] then 0
    else
      var round := es[0].Packet? && s.cycles != 0 && es[0].seqno < s.maxSeq && s.Counts(es[0].seqno);
      (if round then 1 else 0) + Rounds(Next(s, es[0]), es[1..])
  }

  lemma {:induction false} RoundsCounted(s: Stats, es: seq<Event>, t: Stats)
    requires Counting(s, |es|) && AnyRuns(s, es, t)
    ensures s.cycles != 0 ==> t.Extended() == (s.cycles + Rounds(s, es)) * TWO16 + LastNumber(s, es, s.maxSeq)
    ensures s.cycles == 0 && t.cycles != 0 ==> t.Extended() == (1 + Rounds(s, es)) * TWO16 + LastNumber(s, es, s.maxSeq)
    decreases |es|
  {
    hide Counting, Stats.Fits, Next, Stats.Counts;
    if es != [] {
      CountingStep(s, es[0], |es| - 1);
      RoundStep(s, es[0], |es| - 1);
      RoundsCounted(Next(s, es[0]), es[1..], t);
    }
  }

  lemma {:induction false} RoundStep(s: Stats, e: Event, more: nat)
    requires Counting(s, more + 1) && (e.Packet? ==> s.Fits(e.seqno))
    ensures var round := e.Packet? && s.cycles != 0 && e.seqno < s.maxSeq && s.Counts(e.seqno);
            var n := Next(s, e);
            && n.maxSeq == (if e.Packet? && s.Counts(e.seqno) then e.seqno else s.maxSeq)
            && if s.cycles == 0 then !round && 0 <= n.cycles <= 1
               else 0 < n.cycles == s.cycles + if round then 1 else 0
  {
    if e.Packet? && s.Counts(e.seqno) {
      CountedState(s, e);
    }
  }

  /** The highest number of every report: that of the packet counted last, with the rounds above it, counted from 1. */
  lemma {:induction false} HighestOfAnyRun(es: seq<Event>, t: Stats)
    requires AnyRuns(ZEROED, es, t) && |es| < TWO32 && t.received > 0
    ensures t.Rreport().1.highest == (1 + Rounds(ZEROED, es)) * TWO16 + LastNumber(ZEROED, es, 0)
  {
    CountingRun(ZEROED, es, t);
    RoundsCounted(ZEROED, es, t);
  }

  /**
   The cumulative loss of every report of such a run: the numbers skipped less the duplicates, and
   the whole cycle on top, in the 24 bits of its field.
   */
  lemma {:induction false} CumulativeOfAnyRun(es: seq<Event>, t: Stats)
    requires AnyRuns(ZEROED, es, t) && |es| < TWO32 && t.received > 0
    ensures t.Rreport().1.cumulative == (Skipped(ZEROED, es) - Duplicates(ZEROED, es) + TWO16) % TWO24
  {
    CountingRun(ZEROED, es, t);
    var lost := Skipped(ZEROED, es) - Duplicates(ZEROED, es) + TWO16;
    assert t.Expected() - t.received == lost;
    assert Signed32(lost) % TWO24 == lost % TWO24;
  }

  /** Between two reports the offset cancels: the interval is what the extended number has advanced by. */
  lemma {:induction false} LaterIntervals(s: Stats, es: seq<Event>, t: Stats)
    requires Counting(s, |es| + 1) && s.received > 0 && AnyRuns(s.Rreport().0, es, t)
    requires forall i :: 0 <= i < |es| ==> es[i].Packet?
    ensures t.Expected() - t.expectedPrior == t.Extended() - s.Extended()
    ensures t.receivedPrior == s.received <= t.received
  {
    hide Signed32, CDiv, AnyRuns;
    ReportCounts(s, |es|);
    CountingRun(s.Rreport().0, es, t);
    PriorsStay(s.Rreport().0, es, t);
  }

  lemma {:induction false} PriorsStay(s: Stats, es: seq<Event>, t: Stats)
    requires Counting(s, |es|) && s.cycles != 0 && AnyRuns(s, es, t) && forall i :: 0 <= i < |es| ==> es[i].Packet?
    ensures t.baseSeq == s.baseSeq && t.cycles != 0
    ensures t.expectedPrior == s.expectedPrior && t.receivedPrior == s.receivedPrior
    decreases |es|
  {
    hide Counting, Stats.Fits, Next;
    if es != [] {
      CountingStep(s, es[0], |es| - 1);
      PriorsStayStep(s, es[0], |es| - 1);
      PriorsStay(Next(s, es[0]), es[1..], t);
    }
  }

  lemma {:induction false} PriorsStayStep(s: Stats, e: Event, more: nat)
    requires Counting(s, more + 1) && s.cycles != 0 && e.Packet? && s.Fits(e.seqno)
    ensures var r := Next(s, e);
            && r.baseSeq == s.baseSeq && r.cycles != 0
            && r.expectedPrior == s.expectedPrior && r.receivedPrior == s.receivedPrior
  {
    if s.Counts(e.seqno) {
      CountedState(s, e);
    }
  }

  /**
   And the fraction of every report of such a run: with more counted than expected in an interval
   it is 0, and otherwise the share lost, below 256 although it is stored in one octet.
   */
  lemma {:induction false} FractionOfAnyRun(es: seq<Event>, t: Stats)
    requires AnyRuns(ZEROED, es, t) && |es| < TWO32 && t.received > 0
    ensures var interval, received := t.Expected() - t.expectedPrior, t.received - t.receivedPrior;
            && interval >= 0 && received >= 0
            && (interval < 0x8000_0000 && received < 0x8000_0000 && interval - received < 0x80_0000 ==>
                  && 0 <= t.Rreport().1.fraction < 256
                  && t.Rreport().1.fraction == if interval <= received then 0 else Share(interval - received, interval))
  {
    CountingRun(ZEROED, es, t);
    AnyFraction(t);
  }

  lemma {:induction false} AnyFraction(t: Stats)
    requires Counting(t, 0) && t.received > 0
    ensures var interval, received := t.Expected() - t.expectedPrior, t.received - t.receivedPrior;
            && interval >= 0 && received >= 0
            && (interval < 0x8000_0000 && received < 0x8000_0000 && interval - received < 0x80_0000 ==>
                  && 0 <= t.Rreport().1.fraction < 256
                  && t.Rreport().1.fraction == if interval <= received then 0 else Share(interval - received, interval))
  {
    var interval, received := t.Expected() - t.expectedPrior, t.received - t.receivedPrior;
    assert interval >= 0 && received >= 0 && (interval > 0 ==> received > 0);
    hide Counting, Stats.Expected, CDiv, Share;
    if interval < 0x8000_0000 && received < 0x8000_0000 && interval - received < 0x80_0000 {
      SmallStays(interval);
      SmallStays(received);
      SmallStays(interval - received);
      hide Signed32;
      if received < interval {
        FractionOf(interval - received, interval);
        ShareFits(interval - received, interval);
      }
    }
  }

  lemma {:induction false} SmallStays(x: int)
    requires -0x8000_0000 <= x < 0x8000_0000
    ensures Signed32(x) == x
  {
  }

  /** One packet and `k` copies of it. */
  function Copies(e: Event, k: nat): seq<Event>
    decreases k
  {
    if k == 0 then [] else [e] + Copies(e, k - 1)
  }

  lemma {:induction false} CopiesRun(s: Stats, e: Event, k: nat) returns (t: Stats)
    requires s.InRange() && e.Packet? && s.Repeats(e.seqno) && s.Extended() - s.baseSeq + 1 < TWO32
    requires s.received > 0 && s.received + k < TWO32
    ensures AnyRuns(s, Copies(e, k), t) && Duplicates(s, Copies(e, k)) == k && Skipped(s, Copies(e, k)) == 0
    ensures t.received == s.received + k
    decreases k
  {
    hide Next;
    t := s;
    if k > 0 {
      CountedState(s, e);
      assert Copies(e, k)[0] == e && Copies(e, k)[1..] == Copies(e, k - 1);
      t := CopiesRun(Next(s, e), e, k - 1);
    }
  }

  /**
   The failing runs with a single number: a packet and `k` copies of it, of any number and at any
   time, break the assertion exactly from 65537 copies on.
   */
  lemma {:induction false} CopiesBreakExactly(e: Event, k: nat) returns (t: Stats)
    requires e.Packet? && 0 <= e.seqno < TWO16 && k + 1 < TWO32
    ensures AnyRuns(ZEROED, [e] + Copies(e, k), t)
    ensures t.received == k + 1 && (t.received > t.Expected() <==> k > TWO16)
  {
    hide Next;
    var s := Next(ZEROED, e);
    CountedState(ZEROED, e);
    t := CopiesRun(s, e, k);
    var es := [e] + Copies(e, k);
    assert es[0] == e && es[1..] == Copies(e, k);
    CopiesLength(e, k);
    AssertionHoldsExactly(es, t);
  }

  lemma {:induction false} CopiesLength(e: Event, k: nat)
    ensures |Copies(e, k)| == k
    decreases k
  {
    if k > 0 {
      CopiesLength(e, k - 1);
    }
  }

  // ----- jitter -----

  /** How late a packet is on the sender's clock, in the signed 32 bits of the source; early counts as in time. */
  function Lag(timestamp: int, now: int): int {
    if now < timestamp then 0
    else if now - timestamp < 0x8000_0000 then now - timestamp
    else now - timestamp - TWO32
  }

  /** A time stamp and an arrival time in their 32 bits. */
  predicate Timed(e: Event) {
    e.Packet? ==> 0 <= e.timestamp < TWO32 && 0 <= e.now < TWO32
  }

  /** A counted packet leaves its lag behind. */
  lemma {:induction false} LagKept(s: Stats, e: Event)
    requires e.Packet? && Timed(e) && s.Counts(e.seqno)
    ensures s.Transit(e.timestamp, e.now) == Next(s, e).transit == Lag(e.timestamp, e.now)
  {
  }

  /**
   What section 6.4.1 of RFC 3550 asks of the estimate, for two packets counted one after the
   other: it moves by the difference of their lags, less a sixteenth of itself, rounded.
   */
  lemma {:induction false} JitterMoves(s: Stats, e: Event, f: Event)
    requires e.Packet? && f.Packet? && Timed(e) && Timed(f)
    requires s.Counts(e.seqno) && Next(s, e).Counts(f.seqno)
    requires e.now - e.timestamp < 0x8000_0000 && f.now - f.timestamp < 0x8000_0000
    requires 0 <= Next(s, e).jitter && Next(s, e).jitter + 0x8000_0007 < TWO32
    ensures var was := Next(s, e).jitter;
            var change := Abs(Lag(f.timestamp, f.now) - Lag(e.timestamp, e.now));
            Next(Next(s, e), f).jitter == was + change - (was + 8) / 16
    ensures e.now >= e.timestamp && f.now >= f.timestamp ==>
              Lag(f.timestamp, f.now) - Lag(e.timestamp, e.now) == (f.now - f.timestamp) - (e.now - e.timestamp)
  {
    var r := Next(s, e);
    LagKept(s, e);
    LagKept(r, f);
    var x, y := Lag(e.timestamp, e.now), Lag(f.timestamp, f.now);
    assert 0 <= x < 0x8000_0000 && 0 <= y < 0x8000_0000;
    LagCounted(r.CountSeq(f.seqno), x, y);
    hide Stats.CountJitter, Stats.Transit, Lag;
  }

  lemma {:induction false} LagCounted(s: Stats, x: int, y: int)
    requires s.transit == x && 0 <= x < 0x8000_0000 && 0 <= y < 0x8000_0000
    requires 0 <= s.jitter && s.jitter + 0x8000_0007 < TWO32
    ensures s.CountJitter(y).jitter == s.jitter + Abs(y - x) - (s.jitter + 8) / 16
  {
    SmallStays(y - x);
    assert (s.jitter + 8) % TWO32 == s.jitter + 8;
    assert 0 <= s.jitter + Abs(y - x) - (s.jitter + 8) / 16 < TWO32;
    hide Signed32;
  }

  /** A reported jitter is the estimate in whole units. */
  lemma {:induction false} JitterReported(s: Stats)
    requires 0 <= s.jitter
    ensures var j := s.Rreport().1.jitter; 16 * j <= s.jitter < 16 * j + 16
  {
  }

  /** Two packets 40 apart that arrive 240 apart: the estimate is 200, the report 12. */
  lemma {:induction false} JitterOfTwo()
    ensures var e, f := Packet(1, 1000, 1000), Packet(2, 1040, 1240);
            var t := Next(Next(ZEROED, e), f);
            t.jitter == 200 && t.Rreport().1.jitter == 12
  {
    var e, f := Packet(1, 1000, 1000), Packet(2, 1040, 1240);
    var r := Next(ZEROED, e);
    assert r.jitter == 0 && r.cycles == 1 && r.maxSeq == 1;
    JitterMoves(ZEROED, e, f);
  }

  /** No lag in the run differs from the one before by more than `d`. */
  ghost predicate Steady(s: Stats, es: seq<Event>, d: int)
    decreases |es|
  {
    es != [] ==>
      && Timed(es[0])
      && (es[0].Packet? && s.Counts(es[0].seqno) ==> Abs(Lag(es[0].timestamp, es[0].now) - s.transit) <= d)
      && Steady(Next(s, es[0]), es[1..], d)
  }

  /** A run of packets with whatever numbers; nothing is asked of them but that they have 16 bits. */
  ghost predicate Arrivals(s: Stats, es: seq<Event>, t: Stats)
    decreases |es|
  {
    if es == [] then s == t
    else (es[0].Packet? ==> 0 <= es[0].seqno < TWO16) && Arrivals(Next(s, es[0]), es[1..], t)
  }

  lemma {:induction false} StaysInRange(s: Stats, e: Event)
    requires s.InRange() && (e.Packet? ==> 0 <= e.seqno < TWO16)
    ensures Next(s, e).InRange()
  {
    if e.Packet? && s.Counts(e.seqno) {
      CountedState(s, e);
    }
  }

  /** The most a small estimate can grow to: one that starts at 0 stays 15 below the general bound. */
  function Small(d: int): int { Max(16 * d - 8, 0) }

  /** One update: it neither underflows nor leaves the bound. */
  lemma {:induction false} JitterStep(j: int, d: int, bound: int)
    requires 0 <= d <= bound && 0 <= j <= 16 * bound + 7
    ensures 0 <= j + d - (j + 8) / 16 <= 16 * bound + 7
  {
  }

  lemma {:induction false} SmallStep(j: int, d: int, bound: int)
    requires 0 <= d <= bound && 0 <= j <= Small(bound)
    ensures j + d - (j + 8) / 16 <= Small(bound)
  {
  }

  lemma {:induction false} CountJitterIs(s: Stats, t: int, d: int)
    requires 0 <= s.jitter <= 16 * d + 7 && 0 <= d < 0x1000_0000
    requires -0x8000_0000 <= t < 0x8000_0000 && Abs(t - s.transit) <= d
    ensures s.CountJitter(t).jitter == s.jitter + Abs(t - s.transit) - (s.jitter + 8) / 16
  {
    var change := Abs(t - s.transit);
    assert Signed32(t - s.transit) == t - s.transit;
    JitterStep(s.jitter, change, d);
    assert (s.jitter + 8) % TWO32 == s.jitter + 8;
  }

  lemma {:induction false} StepKeepsJitter(s: Stats, e: Event, d: int)
    requires s.InRange() && Timed(e) && 0 <= d < 0x1000_0000 && s.jitter <= 16 * d + 7
    requires e.Packet? && s.Counts(e.seqno) ==> Abs(Lag(e.timestamp, e.now) - s.transit) <= d
    ensures Next(s, e).jitter <= 16 * d + 7 && (s.jitter <= Small(d) ==> Next(s, e).jitter <= Small(d))
    ensures e.Packet? && s.Counts(e.seqno) ==>
              Next(s, e).jitter == s.jitter + Abs(Lag(e.timestamp, e.now) - s.transit) - (s.jitter + 8) / 16
  {
    if e.Packet? && s.Counts(e.seqno) {
      LagKept(s, e);
      var t := Lag(e.timestamp, e.now);
      hide Wrap32, Lag;
      CountJitterIs(s.CountSeq(e.seqno), t, d);
      JitterStep(s.jitter, Abs(t - s.transit), d);
      if s.jitter <= Small(d) {
        SmallStep(s.jitter, Abs(t - s.transit), d);
      }
    }
  }

  /**
   Over every run, whatever numbers come, come again or wrap: the scaled estimate never leaves 0
   to 16 d + 7 while lags differ by at most `d`, so the reported jitter never exceeds
   `d`; from zero it stays below `d`, or at 0.
   */
  lemma {:induction false} JitterBounded(s: Stats, es: seq<Event>, t: Stats, d: int)
    requires s.InRange() && Arrivals(s, es, t) && Steady(s, es, d)
    requires 0 <= d < 0x1000_0000 && s.jitter <= 16 * d + 7
    ensures 0 <= t.jitter <= 16 * d + 7 && t.Rreport().1.jitter <= d
    ensures s.jitter <= Small(d) ==> t.jitter <= Small(d) && t.Rreport().1.jitter <= Max(d - 1, 0)
    decreases |es|
  {
    hide Stats.Statis;
    if es != [] {
      StaysInRange(s, es[0]);
      StepKeepsJitter(s, es[0], d);
      JitterBounded(Next(s, es[0]), es[1..], t, d);
    }
  }
}
