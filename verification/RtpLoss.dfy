/**
 A sender that packetizes as RFC 6184 requires, an in-order channel that loses packets, and
 what the receiver of hgs-rtph264.cpp commits.
 */
module RtpLoss {
  import opened Bytes
  import opened RtpReceiver
  import opened Sequences

  /** What the sender turns into packets: one NAL unit, an aggregate, or one NAL unit in fragments. */
  datatype AnyUnit =
    | Single(nal: Nal)
    | Aggregate(ind: byte, nals: seq<Nal>)
    | Fragmented(header: byte, chunks: seq<seq<byte>>)
  {
    /** Sections 5.6, 5.7.1 and 5.8 of RFC 6184; a fragmented unit has a first and another last fragment. */
    predicate Valid() {
      match this
      case Single(nal) => nal != [] && Type(nal[0]) < 24
      case Aggregate(ind, nals) => Type(ind) == STAP_A && forall i :: 0 <= i < |nals| ==> 0 < |nals[i]| < 0x1_0000
      case Fragmented(header, chunks) => |chunks| >= 2
    }

    function Nals(): seq<Nal> {
      match this
      case Single(nal) => [nal]
      case Aggregate(_, nals) => nals
      case Fragmented(header, chunks) => [[header] + Concat(chunks)]
    }

    function Payloads(): seq<seq<byte>>
      requires Valid()
    {
      match this
      case Single(nal) => [nal]
      case Aggregate(ind, nals) => [[ind] + Sized(nals)]
      case Fragmented(header, chunks) => Fragments(header, chunks, true)
    }
  }

  type Unit = u: AnyUnit | u.Valid() witness Single([1])

  function Sized(nals: seq<Nal>): seq<byte>
    requires forall i :: 0 <= i < |nals| ==> |nals[i]| < 0x1_0000
  {
    if nals == [] then [] else U16(|nals[0]|) + nals[0] + Sized(nals[1..])
  }

  /** The FU-A payloads of a NAL unit: indicator with its F and NRI, FU header with its type, S and E. */
  function Fragments(header: byte, chunks: seq<seq<byte>>, first: bool): seq<seq<byte>> {
    if chunks == [] then []
    else
      [[Indicator(header), FuHeader(header, first, |chunks| == 1)] + chunks[0]]
      + Fragments(header, chunks[1..], false)
  }

  function Indicator(header: byte): byte {
    (header as int / 32 * 32 + FU_A) as byte
  }

  function FuHeader(header: byte, first: bool, last: bool): byte {
    ((if first then 128 else 0) + (if last then 64 else 0) + header as int % 32) as byte
  }

  lemma {:induction false} HeaderRebuilt(header: byte, first: bool, last: bool)
    ensures Rebuilt(Indicator(header), FuHeader(header, first, last)) == header
    ensures Type(Indicator(header)) == FU_A
    ensures Start(FuHeader(header, first, last)) == first && Final(FuHeader(header, first, last)) == last
  {
  }

  lemma {:induction false} AggregateRead(nals: seq<Nal>)
    requires forall i :: 0 <= i < |nals| ==> 0 < |nals[i]| < 0x1_0000
    ensures Aggregated(Sized(nals)) == nals
    decreases |nals|
  {
    if nals != [] {
      var n, rest := nals[0], Sized(nals[1..]);
      var d := Sized(nals);
      assert d == U16(|n|) + (n + rest);
      U16RoundTrip(|n|, n + rest);
      assert d[2..] == n + rest;
      assert (n + rest)[..|n|] == n && (n + rest)[|n|..] == rest;
      AggregateRead(nals[1..]);
    }
  }

  /** The units that are not empty. */
  function NonEmpty(nals: seq<Nal>): seq<Nal> {
    if nals == [] then [] else (if nals[0] == [] then [] else [nals[0]]) + NonEmpty(nals[1..])
  }

  lemma {:induction false} AggregatedStep(n: Nal, rest: seq<byte>)
    requires |n| < 0x1_0000
    ensures Aggregated(U16(|n|) + (n + rest)) == (if n == [] then [] else [n]) + Aggregated(rest)
  {
    var d := U16(|n|) + (n + rest);
    U16RoundTrip(|n|, n + rest);
    assert d[2..] == n + rest;
    assert (n + rest)[..|n|] == n && (n + rest)[|n|..] == rest;
    assert [] + Aggregated(rest) == Aggregated(rest);
    hide U16, ToU16;
  }

  /** Any aggregate: empty units are skipped, and what is left of a unit that was cut off ends the walk. */
  lemma {:induction false} AnyAggregateRead(nals: seq<Nal>, tail: seq<byte>)
    requires forall i :: 0 <= i < |nals| ==> |nals[i]| < 0x1_0000
    requires |tail| < 2 || ToU16(tail) > |tail| - 2
    ensures Aggregated(Sized(nals) + tail) == NonEmpty(nals)
    decreases |nals|
  {
    if nals == [] {
      assert [] + tail == tail;
    } else {
      hide Aggregated, U16, ToU16;
      var n, rest := nals[0], Sized(nals[1..]) + tail;
      assert Sized(nals) + tail == U16(|n|) + (n + rest);
      AggregatedStep(n, rest);
      AnyAggregateRead(nals[1..], tail);
    }
  }

  // ----- the channel -----

  /** A packet as sent: its position in the whole transmission, and its payload. */
  datatype Packet = Packet(pos: int, data: seq<byte>)

  datatype AnySent = Sent(unit: Unit, keep: seq<bool>)
  type Sent = s: AnySent | |s.keep| == |s.unit.Payloads()| witness Sent(Single([1]), [true])

  /** The packets numbered from `pos` on that survive. */
  function Surviving(pos: int, data: seq<seq<byte>>, keep: seq<bool>): seq<Packet>
    requires |data| == |keep|
    decreases |data|
  {
    if data == [] then []
    else (if keep[0] then [Packet(pos, data[0])] else []) + Surviving(pos + 1, data[1..], keep[1..])
  }

  function Channel(pos: int, sents: seq<Sent>): seq<Packet>
    decreases |sents|
  {
    if sents == [] then []
    else Surviving(pos, sents[0].unit.Payloads(), sents[0].keep)
         + Channel(pos + |sents[0].keep|, sents[1..])
  }

  /** The NAL units none of whose packets is lost. */
  function Complete(sents: seq<Sent>): seq<Nal> {
    if sents == [] then []
    else (if AllKept(sents[0].keep) then sents[0].unit.Nals() else []) + Complete(sents[1..])
  }

  /**
   The loss between two surviving packets shows in their 16-bit numbers: it does not straddle
   the wrap, or is so large that even then the number has not come near again.
   */
  predicate Noticeable(prev: int, next: int) {
    var lost := (next - prev - 1) % 0x1_0000;
    lost != 0 && (prev % 0x1_0000 + 1 + lost < 0x1_0000 || lost >= 0x1_0000 - 0x1fff)
  }

  /** The receiver's test misses a loss exactly when it is not noticeable, and never sees one that is not there. */
  lemma {:induction false} LossNoticedExactly(prev: int, next: int)
    requires prev < next
    ensures next == prev + 1 ==> Continuous(prev % 0x1_0000 + 1, next % 0x1_0000)
    ensures next > prev + 1 ==> (Continuous(prev % 0x1_0000 + 1, next % 0x1_0000) <==> !Noticeable(prev, next))
  {
    var exp, lost := prev % 0x1_0000 + 1, (next - prev - 1) % 0x1_0000;
    assert next % 0x1_0000 == (exp + lost) % 0x1_0000;
  }

  /** Between neighbours in the surviving stream nothing is lost, or noticeably. */
  ghost predicate Follows(last: int, ps: seq<Packet>)
    decreases |ps|
  {
    ps == [] ||
    ((last < 0 || ps[0].pos == last + 1 || Noticeable(last, ps[0].pos)) && Follows(ps[0].pos, ps[1..]))
  }

  ghost function Run(rx: Rx, ps: seq<Packet>): Step
    decreases |ps|
  {
    if ps == [] then Step(rx, [])
    else
      var a := OnPacket(rx, ps[0].pos % 0x1_0000, ps[0].data);
      var b := Run(a.rx, ps[1..]);
      Step(b.rx, a.nals + b.nals)
  }

  // ----- runs, step by step -----

  function Last(last: int, ps: seq<Packet>): int {
    if ps == [] then last else ps[|ps| - 1].pos
  }

  lemma {:induction false} RunStep(rx: Rx, p: Packet, ps: seq<Packet>)
    ensures Run(rx, []) == Step(rx, [])
    ensures var a := OnPacket(rx, p.pos % 0x1_0000, p.data);
            var b := Run(a.rx, ps);
            Run(rx, [p] + ps) == Step(b.rx, a.nals + b.nals)
  {
    hide OnPacket;
    assert ([p] + ps)[1..] == ps;
  }

  lemma {:induction false} RunAppend(rx: Rx, a: seq<Packet>, b: seq<Packet>)
    ensures var x := Run(rx, a);
            var y := Run(x.rx, b);
            Run(rx, a + b) == Step(y.rx, x.nals + y.nals)
    decreases |a|
  {
    hide *;
    if a == [] {
      assert a + b == b;
      RunStep(rx, Packet(0, []), []);
      assert [] + Run(rx, b).nals == Run(rx, b).nals;
    } else {
      var p := a[0];
      var r := OnPacket(rx, p.pos % 0x1_0000, p.data);
      assert a == [p] + a[1..] && a + b == [p] + (a[1..] + b);
      RunStep(rx, p, a[1..]);
      RunStep(rx, p, a[1..] + b);
      RunAppend(r.rx, a[1..], b);
      AppendAssoc(r.nals, Run(r.rx, a[1..]).nals, Run(Run(r.rx, a[1..]).rx, b).nals);
    }
  }

  lemma {:induction false} FollowsAppend(last: int, a: seq<Packet>, b: seq<Packet>)
    requires Follows(last, a + b)
    ensures Follows(last, a) && Follows(Last(last, a), b)
    decreases |a|
  {
    if a == [] {
      assert a + b == b;
    } else {
      assert (a + b)[1..] == a[1..] + b;
      FollowsAppend(a[0].pos, a[1..], b);
    }
  }

  /** One packet of the channel: processed if it survives, and the rest follows. */
  lemma {:induction false} RunSurvivor(rx: Rx, pos: int, d: seq<byte>, data: seq<seq<byte>>, keep: seq<bool>)
    requires |keep| == 1 + |data|
    ensures var a := if keep[0] then OnPacket(rx, pos % 0x1_0000, d) else Step(rx, []);
            var b := Run(a.rx, Surviving(pos + 1, data, keep[1..]));
            Run(rx, Surviving(pos, [d] + data, keep)) == Step(b.rx, a.nals + b.nals)
  {
    hide OnPacket, Run;
    assert ([d] + data)[1..] == data;
    var rest := Surviving(pos + 1, data, keep[1..]);
    if keep[0] {
      RunStep(rx, Packet(pos, d), rest);
    } else {
      assert Surviving(pos, [d] + data, keep) == rest;
      assert [] + Run(rx, rest).nals == Run(rx, rest).nals;
    }
  }

  lemma {:induction false} RunNothing(rx: Rx, pos: int)
    ensures Surviving(pos, [], []) == [] && Run(rx, []) == Step(rx, [])
  {
  }

  lemma {:induction false} FragmentsStep(header: byte, chunks: seq<seq<byte>>, first: bool)
    requires chunks != []
    ensures Fragments(header, chunks, first)
            == [[Indicator(header), FuHeader(header, first, |chunks| == 1)] + chunks[0]]
               + Fragments(header, chunks[1..], false)
    ensures |Fragments(header, chunks, first)| == 1 + |Fragments(header, chunks[1..], false)|
  {
  }

  /** What one fragment does. */
  lemma {:induction false} OnFragmentPacket(rx: Rx, pos: int, header: byte, first: bool, last: bool, chunk: seq<byte>)
    ensures var (partial, nals) := OnFragment(rx.partial, Indicator(header), FuHeader(header, first, last), chunk,
                                              Continuous(rx.exp, pos % 0x1_0000));
            OnPacket(rx, pos % 0x1_0000, [Indicator(header), FuHeader(header, first, last)] + chunk)
            == Step(Rx(pos % 0x1_0000 + 1, partial), nals)
  {
    hide OnFragment, Continuous, Indicator, FuHeader;
    HeaderRebuilt(header, first, last);
    var d := [Indicator(header), FuHeader(header, first, last)] + chunk;
    assert d[2..] == chunk;
  }

  // ----- what the losses make of a unit -----

  /**
   `Sound`: a fragmented unit has been started and not ended, and no loss since has gone
   unnoticed. `Spliced`: one has, and later fragments were added to the unit.
   */
  datatype Open = None | Sound | Spliced

  /** The packet that came last, and the unit being collected. */
  datatype Track = Track(last: int, open: Open) {
    /** A fragment at `pos` that starts no unit arrives. */
    function Add(pos: int): Open {
      if open.None? || pos == last + 1 then open
      else if Noticeable(last, pos) then None
      else Spliced
    }

    /** A packet that is no fragment passes. */
    function Pass(pos: int): Track {
      this.(last := pos)
    }
  }

  /** The fragments behind the first one, numbered from `pos` on; the last of them ends the unit. */
  function Tail(t: Track, pos: int, keep: seq<bool>): Track
    decreases |keep|
  {
    if keep == [] then t
    else if !keep[0] then Tail(t, pos + 1, keep[1..])
    else Tail(Track(pos, if |keep| == 1 then None else t.Add(pos)), pos + 1, keep[1..])
  }

  /** They end a unit that has been spliced. */
  predicate TailSplices(t: Track, pos: int, keep: seq<bool>)
    decreases |keep|
  {
    keep != [] &&
    if !keep[0] then TailSplices(t, pos + 1, keep[1..])
    else if |keep| == 1 then t.Add(pos) == Spliced
    else TailSplices(Track(pos, t.Add(pos)), pos + 1, keep[1..])
  }

  lemma {:induction false} TailStep(t: Track, pos: int, keep: seq<bool>)
    ensures keep == [] ==> Tail(t, pos, keep) == t && !TailSplices(t, pos, keep)
    ensures keep != [] ==>
              var u := if keep[0] then Track(pos, if |keep| == 1 then None else t.Add(pos)) else t;
              && Tail(t, pos, keep) == Tail(u, pos + 1, keep[1..])
              && (TailSplices(t, pos, keep)
                  <==> if keep[0] && |keep| == 1 then t.Add(pos) == Spliced else TailSplices(u, pos + 1, keep[1..]))
  {
  }

  /** What the first fragment of a unit leaves, if it arrives. */
  function Started(t: Track, pos: int, keep: seq<bool>): Track
    requires keep != []
  {
    if keep[0] then Track(pos, Sound) else t
  }

  function After(t: Track, pos: int, s: Sent): Track {
    if s.keep == [] then t
    else if s.unit.Fragmented? then Tail(Started(t, pos, s.keep), pos + 1, s.keep[1..])
    else if s.keep[0] then t.Pass(pos)
    else t
  }

  predicate Splices(t: Track, pos: int, s: Sent) {
    s.keep != [] && s.unit.Fragmented? && TailSplices(Started(t, pos, s.keep), pos + 1, s.keep[1..])
  }

  /** No unit that has been spliced is ended. */
  predicate Clean(t: Track, pos: int, sents: seq<Sent>)
    decreases |sents|
  {
    sents == [] || (!Splices(t, pos, sents[0]) && Clean(After(t, pos, sents[0]), pos + |sents[0].keep|, sents[1..]))
  }

  /** Before the packet at `pos`, the receiver collects a unit exactly when one is open. */
  ghost predicate Tracks(rx: Rx, t: Track, pos: int) {
    && -1 <= t.last < pos && (t.open.None? <==> rx.partial == [])
    && (!t.open.None? ==> t.last >= 0 && rx.exp == t.last % 0x1_0000 + 1)
  }

  /** A fragment that starts no unit is added to the one being collected unless a loss is noticed. */
  lemma {:induction false} AddFragment(rx: Rx, t: Track, pos: int, header: byte, last: bool, chunk: seq<byte>)
    requires Tracks(rx, t, pos)
    ensures var a := OnPacket(rx, pos % 0x1_0000, [Indicator(header), FuHeader(header, false, last)] + chunk);
            var o := t.Add(pos);
            && a.rx.exp == pos % 0x1_0000 + 1
            && (o.None? ==> a == Step(Rx(a.rx.exp, []), []))
            && (!o.None? ==> a == if last then Step(Rx(a.rx.exp, []), [rx.partial + chunk])
                                  else Step(Rx(a.rx.exp, rx.partial + chunk), []))
  {
    hide OnPacket, Noticeable, Continuous, Indicator, FuHeader;
    OnFragmentPacket(rx, pos, header, false, last, chunk);
    HeaderRebuilt(header, false, last);
    if !t.open.None? {
      LossNoticedExactly(t.last, pos);
    }
  }

  /** The rest of a unit with a fragment lost: something is committed exactly when a spliced unit ends. */
  lemma {:induction false} BrokenStays(rx: Rx, t: Track, pos: int, header: byte, chunks: seq<seq<byte>>,
                                       keep: seq<bool>)
    requires Tracks(rx, t, pos) && (t.open.Sound? ==> t.last < pos - 1)
    requires |keep| == |Fragments(header, chunks, false)|
    ensures var r := Run(rx, Surviving(pos, Fragments(header, chunks, false), keep));
            && |r.nals| == (if TailSplices(t, pos, keep) then 1 else 0)
            && Tracks(r.rx, Tail(t, pos, keep), pos + |keep|)
    decreases |chunks|
  {
    hide Run, Surviving, Fragments, OnPacket, Indicator, FuHeader, Noticeable, Tail, TailSplices;
    TailStep(t, pos, keep);
    if chunks == [] {
      NoFragments(header);
      RunNothing(rx, pos);
    } else {
      FragmentsStep(header, chunks, false);
      FragmentsCount(header, chunks, false);
      var d := [Indicator(header), FuHeader(header, false, |chunks| == 1)] + chunks[0];
      RunSurvivor(rx, pos, d, Fragments(header, chunks[1..], false), keep);
      if keep[0] {
        AddFragment(rx, t, pos, header, |chunks| == 1, chunks[0]);
        TailStep(Track(pos, None), pos + 1, keep[1..]);
        var a := OnPacket(rx, pos % 0x1_0000, d);
        var u := Track(pos, if |chunks| == 1 then None else t.Add(pos));
        BrokenStays(a.rx, u, pos + 1, header, chunks[1..], keep[1..]);
      } else {
        BrokenStays(rx, t, pos + 1, header, chunks[1..], keep[1..]);
      }
    }
  }

  lemma {:induction false} FragmentsCount(header: byte, chunks: seq<seq<byte>>, first: bool)
    ensures |Fragments(header, chunks, first)| == |chunks|
    decreases |chunks|
  {
    if chunks != [] {
      FragmentsCount(header, chunks[1..], false);
    }
  }

  lemma {:induction false} NoFragments(header: byte)
    ensures Fragments(header, [], false) == []
  {
  }

  /** A unit collected without a gap is committed whole, exactly when the rest of its fragments survive. */
  lemma {:induction false} WholeSoFar(rx: Rx, pos: int, header: byte, done: seq<byte>,
                                      chunks: seq<seq<byte>>, keep: seq<bool>)
    requires pos > 0 && rx == Rx((pos - 1) % 0x1_0000 + 1, [header] + done)
    requires chunks != [] && |keep| == |Fragments(header, chunks, false)|
    ensures var r, t := Run(rx, Surviving(pos, Fragments(header, chunks, false), keep)), Track(pos - 1, Sound);
            && Tracks(r.rx, Tail(t, pos, keep), pos + |keep|)
            && if AllKept(keep) then r.nals == [[header] + (done + Concat(chunks))] && !TailSplices(t, pos, keep)
               else |r.nals| == if TailSplices(t, pos, keep) then 1 else 0
    decreases |chunks|
  {
    hide Run, Surviving, Fragments, OnPacket, Indicator, FuHeader, Noticeable, Tail, TailSplices;
    FragmentsStep(header, chunks, false);
    FragmentsCount(header, chunks, false);
    TailStep(Track(pos - 1, Sound), pos, keep);
    TailStep(Track(pos, None), pos + 1, keep[1..]);
    var d := [Indicator(header), FuHeader(header, false, |chunks| == 1)] + chunks[0];
    RunSurvivor(rx, pos, d, Fragments(header, chunks[1..], false), keep);
    AllKeptStep(keep);
    var t := Track(pos - 1, Sound);
    if keep[0] {
      AddFragment(rx, t, pos, header, |chunks| == 1, chunks[0]);
      var a := OnPacket(rx, pos % 0x1_0000, d);
      var next := done + chunks[0];
      assert rx.partial + chunks[0] == [header] + next;
      assert done + Concat(chunks) == next + Concat(chunks[1..]);
      if |chunks| == 1 {
        NoFragments(header);
        RunNothing(a.rx, pos + 1);
        assert chunks[1..] == [] && keep[1..] == [] && next + [] == next;
      } else {
        WholeSoFar(a.rx, pos + 1, header, next, chunks[1..], keep[1..]);
      }
    } else {
      BrokenStays(rx, t, pos + 1, header, chunks[1..], keep[1..]);
    }
  }

  // ----- units and transmissions -----

  /** A unit that travels in one packet. */
  lemma {:induction false} OnePacketUnit(rx: Rx, t: Track, pos: int, d: seq<byte>, nals: seq<Nal>, keep: seq<bool>)
    requires Tracks(rx, t, pos) && |keep| == 1
    requires OnPacket(rx, pos % 0x1_0000, d) == Step(Rx(pos % 0x1_0000 + 1, rx.partial), nals)
    ensures var r := Run(rx, Surviving(pos, [d], keep));
            r.nals == (if AllKept(keep) then nals else []) && Tracks(r.rx, if keep[0] then t.Pass(pos) else t, pos + 1)
  {
    hide Run, Surviving, OnPacket;
    assert [d] + [] == [d] && keep[1..] == [];
    RunSurvivor(rx, pos, d, [], keep);
    RunNothing(rx, pos + 1);
    RunNothing(Rx(pos % 0x1_0000 + 1, rx.partial), pos + 1);
    assert nals + [] == nals;
  }

  lemma {:induction false} FragmentedUnit(rx: Rx, t: Track, pos: int, header: byte, chunks: seq<seq<byte>>,
                                          keep: seq<bool>)
    requires Tracks(rx, t, pos) && |chunks| >= 2 && |keep| == |Fragments(header, chunks, true)|
    ensures keep != []
    ensures var r, u := Run(rx, Surviving(pos, Fragments(header, chunks, true), keep)), Started(t, pos, keep);
            && Tracks(r.rx, Tail(u, pos + 1, keep[1..]), pos + |keep|)
            && if AllKept(keep) then r.nals == [[header] + Concat(chunks)] && !TailSplices(u, pos + 1, keep[1..])
               else |r.nals| == if TailSplices(u, pos + 1, keep[1..]) then 1 else 0
  {
    hide Run, Surviving, Fragments, OnPacket, Indicator, FuHeader, Noticeable, Continuous, Tail, TailSplices;
    FragmentsStep(header, chunks, true);
    var d := [Indicator(header), FuHeader(header, true, false)] + chunks[0];
    RunSurvivor(rx, pos, d, Fragments(header, chunks[1..], false), keep);
    AllKeptStep(keep);
    if keep[0] {
      OnFragmentPacket(rx, pos, header, true, false, chunks[0]);
      HeaderRebuilt(header, true, false);
      WholeSoFar(OnPacket(rx, pos % 0x1_0000, d).rx, pos + 1, header, chunks[0], chunks[1..], keep[1..]);
    } else {
      BrokenStays(rx, t, pos + 1, header, chunks[1..], keep[1..]);
    }
  }

  /** One unit, whatever came before: whole when all its packets survive, and otherwise nothing but a spliced one. */
  lemma {:induction false} OneUnit(rx: Rx, t: Track, pos: int, s: Sent)
    requires Tracks(rx, t, pos)
    ensures var r := Run(rx, Surviving(pos, s.unit.Payloads(), s.keep));
            && Tracks(r.rx, After(t, pos, s), pos + |s.keep|)
            && if AllKept(s.keep) then r.nals == s.unit.Nals() && !Splices(t, pos, s)
               else |r.nals| == if Splices(t, pos, s) then 1 else 0
  {
    hide Run, Surviving, Fragments, Tracks, Sized, Aggregated, Tail, TailSplices;
    match s.unit
    case Single(nal) =>
      OnePacketUnit(rx, t, pos, nal, [nal], s.keep);
    case Aggregate(ind, nals) =>
      AggregateRead(nals);
      var d := [ind] + Sized(nals);
      assert d[1..] == Sized(nals);
      OnePacketUnit(rx, t, pos, d, nals, s.keep);
    case Fragmented(header, chunks) =>
      FragmentedUnit(rx, t, pos, header, chunks, s.keep);
  }

  lemma {:induction false} ChannelStep(pos: int, sents: seq<Sent>)
    ensures sents == [] ==> Channel(pos, sents) == [] && Complete(sents) == []
    ensures sents != [] ==>
              Channel(pos, sents) == Surviving(pos, sents[0].unit.Payloads(), sents[0].keep)
                                     + Channel(pos + |sents[0].keep|, sents[1..])
    ensures sents != [] ==>
              Complete(sents) == (if AllKept(sents[0].keep) then sents[0].unit.Nals() else []) + Complete(sents[1..])
  {
  }

  /** Every complete unit is committed, whatever else is. */
  lemma {:induction false} AtLeastComplete(rx: Rx, t: Track, pos: int, sents: seq<Sent>)
    requires Tracks(rx, t, pos)
    ensures |Run(rx, Channel(pos, sents)).nals| >= |Complete(sents)|
    decreases |sents|
  {
    hide *;
    ChannelStep(pos, sents);
    if sents != [] {
      var s := sents[0];
      var a := Surviving(pos, s.unit.Payloads(), s.keep);
      OneUnit(rx, t, pos, s);
      RunAppend(rx, a, Channel(pos + |s.keep|, sents[1..]));
      AtLeastComplete(Run(rx, a).rx, After(t, pos, s), pos + |s.keep|, sents[1..]);
    }
  }

  /**
   Exactly, over every run and whatever is lost: the receiver commits the NAL units none of whose
   packets is lost, once each, in order and byte for byte, and nothing else, if and only if no
   unit is ended that a loss which does not show in the 16-bit numbers has spliced.
   */
  lemma {:induction false} CommitsExactly(rx: Rx, t: Track, pos: int, sents: seq<Sent>)
    requires Tracks(rx, t, pos)
    ensures Run(rx, Channel(pos, sents)).nals == Complete(sents) <==> Clean(t, pos, sents)
    decreases |sents|
  {
    hide Run, Surviving, Channel, Complete, Tracks, After, Splices, Tail, TailSplices, AllKept;
    ChannelStep(pos, sents);
    if sents != [] {
      var s := sents[0];
      var a := Surviving(pos, s.unit.Payloads(), s.keep);
      OneUnit(rx, t, pos, s);
      RunAppend(rx, a, Channel(pos + |s.keep|, sents[1..]));
      var x := Run(rx, a);
      if Splices(t, pos, s) {
        AtLeastComplete(x.rx, After(t, pos, s), pos + |s.keep|, sents[1..]);
      } else {
        CommitsExactly(x.rx, After(t, pos, s), pos + |s.keep|, sents[1..]);
        SamePrefix(x.nals, Run(x.rx, Channel(pos + |s.keep|, sents[1..])).nals, Complete(sents[1..]));
      }
    } else {
      RunNothing(rx, pos);
    }
  }

  // ----- losses that all show -----

  /** What surviving packets follow, one packet on. */
  lemma {:induction false} SurvivingStep(last: int, pos: int, data: seq<seq<byte>>, keep: seq<bool>)
    requires |data| == |keep|
    ensures keep == [] ==> Last(last, Surviving(pos, data, keep)) == last
    ensures keep != [] ==>
              var l, ps := if keep[0] then pos else last, Surviving(pos + 1, data[1..], keep[1..]);
              && Last(last, Surviving(pos, data, keep)) == Last(l, ps)
              && (Follows(last, Surviving(pos, data, keep)) ==>
                    Follows(l, ps) && (keep[0] ==> last < 0 || pos == last + 1 || Noticeable(last, pos)))
  {
    hide Noticeable;
    if keep != [] {
      var ps := Surviving(pos + 1, data[1..], keep[1..]);
      if keep[0] {
        assert Surviving(pos, data, keep) == [Packet(pos, data[0])] + ps;
        assert ([Packet(pos, data[0])] + ps)[1..] == ps;
      } else {
        assert Surviving(pos, data, keep) == ps;
      }
    }
  }

  lemma {:induction false} TailFollows(t: Track, pos: int, data: seq<seq<byte>>, keep: seq<bool>)
    requires |data| == |keep| && Follows(t.last, Surviving(pos, data, keep))
    requires !t.open.Spliced? && (t.last < 0 ==> t.open.None?) && pos >= 0
    ensures !TailSplices(t, pos, keep)
    ensures var u := Tail(t, pos, keep);
            !u.open.Spliced? && u.last == Last(t.last, Surviving(pos, data, keep)) && (u.last < 0 ==> u.open.None?)
    decreases |keep|
  {
    hide Noticeable, Tail, TailSplices, Follows, Surviving;
    SurvivingStep(t.last, pos, data, keep);
    TailStep(t, pos, keep);
    if keep != [] {
      if keep[0] {
        TailFollows(Track(pos, if |keep| == 1 then None else t.Add(pos)), pos + 1, data[1..], keep[1..]);
      } else {
        TailFollows(t, pos + 1, data[1..], keep[1..]);
      }
    }
  }

  lemma {:induction false} UnitFollows(t: Track, pos: int, s: Sent)
    requires Follows(t.last, Surviving(pos, s.unit.Payloads(), s.keep))
    requires !t.open.Spliced? && (t.last < 0 ==> t.open.None?) && pos >= 0
    ensures !Splices(t, pos, s)
    ensures var u := After(t, pos, s);
            && !u.open.Spliced? && (u.last < 0 ==> u.open.None?)
            && u.last == Last(t.last, Surviving(pos, s.unit.Payloads(), s.keep))
  {
    hide Noticeable, Fragments, Sized, Tail, TailSplices, Surviving, Follows;
    var data, keep := s.unit.Payloads(), s.keep;
    SurvivingStep(t.last, pos, data, keep);
    if keep != [] {
      if s.unit.Fragmented? {
        TailFollows(Started(t, pos, keep), pos + 1, data[1..], keep[1..]);
      } else {
        assert keep[1..] == [];
        SurvivingStep(if keep[0] then pos else t.last, pos + 1, data[1..], keep[1..]);
      }
    }
  }

  lemma {:induction false} FollowsIsClean(t: Track, pos: int, sents: seq<Sent>)
    requires Follows(t.last, Channel(pos, sents))
    requires !t.open.Spliced? && (t.last < 0 ==> t.open.None?) && pos >= 0
    ensures Clean(t, pos, sents)
    decreases |sents|
  {
    hide Follows, Surviving, Channel, Complete, Splices, After;
    ChannelStep(pos, sents);
    if sents != [] {
      var s := sents[0];
      FollowsAppend(t.last, Surviving(pos, s.unit.Payloads(), s.keep), Channel(pos + |s.keep|, sents[1..]));
      UnitFollows(t, pos, s);
      FollowsIsClean(After(t, pos, s), pos + |s.keep|, sents[1..]);
    }
  }

  /**
   Loss-safe and complete: with losses that the 16-bit numbers can show, the receiver commits
   exactly the NAL units none of whose packets is lost.
   */
  lemma {:induction false} LossSafe(rx: Rx, t: Track, pos: int, sents: seq<Sent>)
    requires Tracks(rx, t, pos) && !t.open.Spliced? && Follows(t.last, Channel(pos, sents))
    ensures Run(rx, Channel(pos, sents)).nals == Complete(sents)
  {
    FollowsIsClean(t, pos, sents);
    CommitsExactly(rx, t, pos, sents);
  }

  /** A datagram: an RTP header of 12 octets with its CSRC list, whatever else it says, and the payload. */
  ghost predicate RtpDatagram(d: seq<byte>, seqno: int, data: seq<byte>) {
    exists h: seq<byte> ::
      |h| >= 12 && |h| == 12 + 4 * (h[0] as int % 16) && ToU16(h[2..]) == seqno && d == h + data
  }

  lemma {:induction false} DatagramParsed(rx: Rx, d: seq<byte>, seqno: int, data: seq<byte>)
    requires RtpDatagram(d, seqno, data)
    ensures OnDatagram(rx, d) == OnPacket(rx, seqno, data)
  {
    hide OnPacket;
    var h: seq<byte> :|
      |h| >= 12 && |h| == 12 + 4 * (h[0] as int % 16) && ToU16(h[2..]) == seqno && d == h + data;
    assert d[0] == h[0] && d[|h|..] == data;
    assert d[2..] == h[2..] + data;
  }

  /** The datagrams carry exactly the packets, in order. */
  ghost predicate Carries(ds: seq<seq<byte>>, ps: seq<Packet>) {
    |ds| == |ps| && forall i :: 0 <= i < |ds| ==> RtpDatagram(ds[i], ps[i].pos % 0x1_0000, ps[i].data)
  }

  ghost function RunDatagrams(rx: Rx, ds: seq<seq<byte>>): Step
    decreases |ds|
  {
    if ds == [] then Step(rx, [])
    else
      var a := OnDatagram(rx, ds[0]);
      var b := RunDatagrams(a.rx, ds[1..]);
      Step(b.rx, a.nals + b.nals)
  }

  lemma {:induction false} DatagramsArePackets(rx: Rx, ds: seq<seq<byte>>, ps: seq<Packet>)
    requires Carries(ds, ps)
    ensures RunDatagrams(rx, ds) == Run(rx, ps)
    decreases |ds|
  {
    hide OnPacket, OnDatagram, RtpDatagram;
    if ds != [] {
      DatagramParsed(rx, ds[0], ps[0].pos % 0x1_0000, ps[0].data);
      DatagramsArePackets(OnPacket(rx, ps[0].pos % 0x1_0000, ps[0].data).rx, ds[1..], ps[1..]);
    }
  }

  /** The same for datagrams, from the first one on. */
  lemma {:induction false} DepacketizesExactly(first: nat, sents: seq<Sent>, ds: seq<seq<byte>>)
    requires Carries(ds, Channel(first, sents))
    ensures RunDatagrams(Rx(0, []), ds).nals == Complete(sents) <==> Clean(Track(-1, None), first, sents)
  {
    DatagramsArePackets(Rx(0, []), ds, Channel(first, sents));
    CommitsExactly(Rx(0, []), Track(-1, None), first, sents);
  }

  lemma {:induction false} DepacketizesUnderLoss(first: nat, sents: seq<Sent>, ds: seq<seq<byte>>)
    requires Follows(-1, Channel(first, sents)) && Carries(ds, Channel(first, sents))
    ensures RunDatagrams(Rx(0, []), ds).nals == Complete(sents)
  {
    DatagramsArePackets(Rx(0, []), ds, Channel(first, sents));
    LossSafe(Rx(0, []), Track(-1, None), first, sents);
  }

  /**
   What an unnoticed loss does: two fragmented units, the last fragment of the first and the
   first of the second lost, are committed as one exactly when the loss is not noticeable.
   */
  lemma {:induction false} SplicedExactly(pos: nat, next: int, a: seq<byte>, b: seq<byte>, h: byte, g: byte)
    requires pos + 1 < next
    ensures var ps := [Packet(pos, [Indicator(h), FuHeader(h, true, false)] + a),
                       Packet(next, [Indicator(g), FuHeader(g, false, true)] + b)];
            Run(Rx(0, []), ps).nals == if Noticeable(pos, next) then [] else [[h] + a + b]
  {
    hide OnPacket, Run, Indicator, FuHeader, Noticeable, Continuous;
    var d, e := [Indicator(h), FuHeader(h, true, false)] + a, [Indicator(g), FuHeader(g, false, true)] + b;
    var p, q := Packet(pos, d), Packet(next, e);
    var x := OnPacket(Rx(0, []), pos % 0x1_0000, d);
    var y := OnPacket(x.rx, next % 0x1_0000, e);
    OnFragmentPacket(Rx(0, []), pos, h, true, false, a);
    OnFragmentPacket(x.rx, next, g, false, true, b);
    HeaderRebuilt(h, true, false);
    HeaderRebuilt(g, false, true);
    LossNoticedExactly(pos, next);
    assert [p] + [q] == [p, q] && [q] + [] == [q];
    RunStep(Rx(0, []), p, [q]);
    RunStep(x.rx, q, []);
    RunStep(y.rx, q, []);
    assert [] + (y.nals + []) == y.nals;
  }
}
