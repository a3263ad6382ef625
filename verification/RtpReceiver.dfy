/**
 The H.264 depacketizer of android/jni-01/hgs-rtph264.cpp: single NAL unit packets, STAP-A
 (section 5.7.1 of RFC 6184) and FU-A (section 5.8), with loss detection on 16-bit numbers.
 */
module RtpReceiver {
  import opened Bytes
  import opened MBuffer

  type Nal = seq<byte>

  const STAP_A := 24
  const FU_A := 28

  function Type(h: byte): int { h as int % 32 }
  function Start(fu: byte): bool { fu as int >= 128 }
  function Final(fu: byte): bool { fu as int / 64 % 2 == 1 }

  /** The NAL unit header behind the fragments: F and NRI of the indicator, type of the FU header. */
  function Rebuilt(indicator: byte, fu: byte): byte {
    (indicator as int / 32 * 32 + fu as int % 32) as byte
  }

  // ----- the receiver on values -----

  /** `exp` is the number expected next; `partial` the NAL unit being collected, if any. */
  datatype Rx = Rx(exp: int, partial: seq<byte>)
  datatype Step = Step(rx: Rx, nals: seq<Nal>)

  /** The aggregation units of a STAP-A: a zero length is skipped, one too long ends the walk. */
  function Aggregated(data: seq<byte>): seq<Nal>
    decreases |data|
  {
    if |data| < 2 then []
    else
      var len, rest := ToU16(data), data[2..];
      if len > |rest| then []
      else if len == 0 then Aggregated(rest)
      else [rest[..len]] + Aggregated(rest[len..])
  }

  /** `nalu_incoming`. */
  function OnPayload(partial: seq<byte>, data: seq<byte>, continuous: bool): (seq<byte>, seq<Nal>) {
    if data == [] then (partial, [])
    else
      var t := Type(data[0]);
      if t == STAP_A then (partial, Aggregated(data[1..]))
      else if t == FU_A then
        if |data| < 2 then (partial, []) else OnFragment(partial, data[0], data[1], data[2..], continuous)
      else if t < 24 then (partial, [data])
      else (partial, [])
  }

  function OnFragment(partial: seq<byte>, ind: byte, fu: byte, chunk: seq<byte>, continuous: bool)
    : (seq<byte>, seq<Nal>)
  {
    if !Start(fu) && (!continuous || partial == []) then ([], [])
    else
      var all := (if Start(fu) then [Rebuilt(ind, fu)] else partial) + chunk;
      if Final(fu) then ([], [all]) else (all, [])
  }

  /** A fragment is counted in the statistics when it is taken. */
  predicate CountsFragment(partial: seq<byte>, fu: byte, continuous: bool) {
    Start(fu) || (continuous && partial != [])
  }

  predicate CountsPayload(partial: seq<byte>, data: seq<byte>, continuous: bool) {
    |data| >= 2 && Type(data[0]) == FU_A && CountsFragment(partial, data[1], continuous)
  }

  /** The statistics see exactly the fragments that are kept: those that extend a unit or end one. */
  lemma {:induction false} CountedWhenKept(partial: seq<byte>, ind: byte, fu: byte, chunk: seq<byte>, continuous: bool)
    ensures CountsPayload(partial, [ind, fu] + chunk, continuous)
            <==> Type(ind) == FU_A && OnFragment(partial, ind, fu, chunk, continuous) != ([], [])
  {
    var data := [ind, fu] + chunk;
    assert data[0] == ind && data[1] == fu && |data| >= 2;
  }

  /** Payloads of any other type, and those too short for their headers, leave everything as it is. */
  lemma {:induction false} OthersIgnored(partial: seq<byte>, data: seq<byte>, continuous: bool)
    requires data == [] || Type(data[0]) in {25, 26, 27, 29, 30, 31} || (Type(data[0]) == FU_A && |data| == 1)
    ensures OnPayload(partial, data, continuous) == (partial, []) && !CountsPayload(partial, data, continuous)
  {
  }

  /** The test of `handle_datagram` against the expected number. */
  predicate Continuous(exp: int, seqno: int) {
    seqno == exp % 0x1_0000 || (seqno < exp && exp - seqno > 0x1fff)
  }

  function OnPacket(rx: Rx, seqno: int, data: seq<byte>): Step {
    var (partial, nals) := OnPayload(rx.partial, data, Continuous(rx.exp, seqno));
    Step(Rx(seqno + 1, partial), nals)
  }

  /** Long enough for its header with as many CSRC entries as it says; other datagrams change nothing. */
  predicate Castable(d: seq<byte>) {
    |d| >= 12 && |d| >= 12 + 4 * (d[0] as int % 16)
  }

  function OnDatagram(rx: Rx, d: seq<byte>): Step {
    if Castable(d) then OnPacket(rx, ToU16(d[2..]), d[12 + 4 * (d[0] as int % 16)..])
    else Step(rx, [])
  }

  /** Too short for a header, or for the CSRC list it announces: nothing changes. */
  lemma {:induction false} ShortIgnored(rx: Rx, d: seq<byte>)
    requires |d| < 12 || |d| < 12 + 4 * (d[0] as int % 16)
    ensures OnDatagram(rx, d) == Step(rx, [])
  {
  }

  // ----- the object -----

  class RtpReceiver {
    var expseq: int
    var bufp: MBuffer

    ghost predicate Valid()
      reads this, bufp
    {
      bufp.Valid()
    }

    ghost function State(): Rx
      requires Valid()
      reads this, bufp, bufp.base
    {
      Rx(expseq, bufp.Nal())
    }

    constructor ()
      ensures Valid() && fresh(bufp) && State() == Rx(0, []) && bufp.base == null
    {
      expseq := 0;
      bufp := new MBuffer();
    }

    method StapA(data: seq<byte>) returns (nals: seq<Nal>)
      ensures nals == Aggregated(data)
    {
      nals := [];
      var d := data;
      while |d| >= 2
        invariant Aggregated(data) == nals + Aggregated(d)
        decreases |d|
      {
        var len := ToU16(d);
        d := d[2..];
        if len > |d| {
          return;
        }
        if len >= 1 {
          nals := nals + [d[..len]];
          d := d[len..];
        }
      }
    }

    method FuA(rh: seq<byte>, ind: byte, fu: byte, chunk: seq<byte>, continuous: bool)
      returns (nals: seq<Nal>, counted: bool)
      requires Valid() && |rh| == RTP_HEADER
      modifies this`bufp, bufp, bufp.base
      ensures Valid() && (bufp == old(bufp) || fresh(bufp))
      ensures bufp.base == null || bufp.base == old(bufp.base) || fresh(bufp.base)
      ensures (bufp.Nal(), nals) == OnFragment(old(bufp.Nal()), ind, fu, chunk, continuous)
      ensures counted == CountsFragment(old(bufp.Nal()), fu, continuous)
    {
      nals, counted := [], false;
      if Start(fu) {
        bufp := new MBuffer.Init(rh, Rebuilt(ind, fu));
      } else if !continuous {
        bufp := new MBuffer();
        return;
      } else if bufp.Empty() {
        return;
      }
      counted := true;
      bufp.Put(chunk);
      if Final(fu) {
        var sink := new MBuffer();
        sink.MoveFrom(bufp);
        nals := [sink.base[NAL..sink.size]];
      }
    }

    method NaluIncoming(rh: seq<byte>, data: seq<byte>, continuous: bool)
      returns (nals: seq<Nal>, counted: bool)
      requires Valid() && |rh| == RTP_HEADER
      modifies this`bufp, bufp, bufp.base
      ensures Valid() && (bufp == old(bufp) || fresh(bufp))
      ensures bufp.base == null || bufp.base == old(bufp.base) || fresh(bufp.base)
      ensures (bufp.Nal(), nals) == OnPayload(old(bufp.Nal()), data, continuous)
      ensures counted == CountsPayload(old(bufp.Nal()), data, continuous)
    {
      nals, counted := [], false;
      if |data| == 0 {
        return;
      }
      var t := Type(data[0]);
      if t == STAP_A {
        nals := StapA(data[1..]);
      } else if t == FU_A {
        if |data| >= 2 {
          nals, counted := FuA(rh, data[0], data[1], data[2..], continuous);
        }
      } else if t < 24 {
        var b := new MBuffer.Init(rh, data[0]);
        b.Put(data[1..]);
        assert [data[0]] + data[1..] == data;
        nals := [b.base[NAL..b.size]];
      }
    }

    method HandleDatagram(rh: seq<byte>, d: seq<byte>) returns (nals: seq<Nal>, counted: bool)
      requires Valid() && |rh| == RTP_HEADER
      modifies this, bufp, bufp.base
      ensures Valid() && (bufp == old(bufp) || fresh(bufp))
      ensures bufp.base == null || bufp.base == old(bufp.base) || fresh(bufp.base)
      ensures Step(State(), nals) == OnDatagram(old(State()), d)
      ensures counted == (Castable(d) && CountsPayload(old(State()).partial, d[12 + 4 * (d[0] as int % 16)..],
                                                       Continuous(old(State()).exp, ToU16(d[2..]))))
    {
      if !Castable(d) {
        return [], false;
      }
      var seqno := ToU16(d[2..]);
      var exp := expseq;
      expseq := seqno + 1;
      var continuous := true;
      if seqno != exp % 0x1_0000 {
        if seqno < exp && exp - seqno > 0x1fff {
        } else {
          continuous := false;
        }
      }
      nals, counted := NaluIncoming(rh, d[12 + 4 * (d[0] as int % 16)..], continuous);
    }
  }
}
