/**
 Length-prefixed framing: the server's `done` in main.cpp turns an encoder frame into a
 message, the client's `unpack` and `process_recvd` of epoll.hpp turn bytes back into frames.
 */
module Framing {
  import opened Bytes
  import opened Buffer
  import opened Sequences

  /** What the client does with a record: write a frame to its file, or send a record back. */
  datatype Event = Frame(bytes: seq<byte>) | Feedback(record: seq<byte>)

  /** The records of a message: an encoded frame without its start code, and the `PadInfo` behind it. */
  datatype AnyRecord = Video(body: seq<byte>) | Pad(info: seq<byte>)

  const START_CODE: seq<byte> := [0, 0, 0, 1]
  const PAD_MARK := 0x8000_0000 + 12

  /** Frames of 4 to 2^24 - 1 bytes, and the fixed 12 bytes of a `PadInfo`. */
  predicate ValidRecord(r: AnyRecord) {
    match r
    case Video(body) => 4 + |body| < 0x100_0000
    case Pad(info) => |info| == 8
  }

  type Record = r: AnyRecord | ValidRecord(r) witness Video([])

  function Wire(r: Record): (b: seq<byte>)
    ensures |b| >= 4
  {
    match r
    case Video(body) => U32(4 + |body|) + body
    case Pad(info) => U32(PAD_MARK) + info
  }

  /** What the receiver should see of a record. */
  function EventOf(r: Record): Event
  {
    match r
    case Video(body) => Frame(START_CODE + body)
    case Pad(info) => Feedback(Wire(r))
  }

  function Stream(rs: seq<Record>): seq<byte>
  {
    if rs == [] then [] else Wire(rs[0]) + Stream(rs[1..])
  }

  function Events(rs: seq<Record>): seq<Event>
  {
    if rs == [] then [] else [EventOf(rs[0])] + Events(rs[1..])
  }

  // ----- the receiver -----

  datatype Unpacked = Unpacked(len: nat, events: seq<Event>, buf: seq<byte>)

  /** One call of `ClientMain::unpack`; it also rewrites the header of a frame inside the buffer. */
  function Unpack(buf: seq<byte>): (u: Unpacked)
    ensures |u.buf| == |buf| && u.len <= |buf|
  {
    if |buf| < 8 then Unpacked(0, [], buf)
    else
      var uh := ToU32(buf);
      var n := uh % 0x100_0000;
      if |buf| < n then Unpacked(0, [], buf)
      else if uh >= 0x8000_0000 then Unpacked(n, [Feedback(buf[..n])], buf)
      else
        var b := START_CODE + buf[4..];
        Unpacked(n, [Frame(b[..n])], b)
  }

  datatype Drained = Drained(events: seq<Event>, rest: seq<byte>)

  /** `process_recvd`: unpack until the buffer is empty or nothing more is taken. */
  function Drain(buf: seq<byte>): Drained
    decreases |buf|
  {
    if buf == [] then Drained([], [])
    else
      var u := Unpack(buf);
      if u.len > 0 then
        var d := Drain(u.buf[u.len..]);
        Drained(u.events + d.events, d.rest)
      else
        Drained(u.events, u.buf)
  }

  method UnpackInPlace(rb: BufferRef) returns (len: nat, events: seq<Event>)
    requires rb.Valid()
    modifies rb.mem
    ensures rb.Valid()
    ensures Unpacked(len, events, rb.Contents()) == Unpack(old(rb.Contents()))
  {
    if rb.len < 8 {
      return 0, [];
    }
    var uh := ToU32(rb.mem[..rb.len]);
    var n := uh % 0x100_0000;
    if rb.len < n {
      return 0, [];
    }
    if uh >= 0x8000_0000 {
      assert rb.mem[..n] == rb.Contents()[..n];
      return n, [Feedback(rb.mem[..n])];
    }
    rb.mem[0], rb.mem[1], rb.mem[2], rb.mem[3] := 0, 0, 0, 1;
    assert rb.Contents() == START_CODE + old(rb.Contents())[4..];
    assert rb.mem[..n] == rb.Contents()[..n];
    return n, [Frame(rb.mem[..n])];
  }

  lemma {:induction false} DrainStep(buf: seq<byte>, u: Unpacked)
    requires buf != [] && u == Unpack(buf)
    ensures u.len == 0 ==> Drain(buf) == Drained(u.events, u.buf)
    ensures u.len > 0 ==> var d := Drain(u.buf[u.len..]); Drain(buf) == Drained(u.events + d.events, d.rest)
  {
  }

  method ProcessRecvd(rb: BufferRef) returns (events: seq<Event>)
    requires rb.Valid()
    modifies rb`len, rb.mem
    ensures rb.Valid() && Drained(events, rb.Contents()) == Drain(old(rb.Contents()))
  {
    ghost var all := Drain(rb.Contents());
    ghost var d := all;
    events := [];
    while rb.len != 0
      invariant rb.Valid() && d == Drain(rb.Contents())
      invariant all.events == events + d.events && all.rest == d.rest
      decreases rb.len
    {
      ghost var buf, d0, e0 := rb.Contents(), d, events;
      var len, evs := UnpackInPlace(rb);
      DrainStep(buf, Unpack(buf));
      events := events + evs;
      if len > 0 {
        rb.Consume(len);
        d := Drain(rb.Contents());
        assert d0.events == evs + d.events;
        assert e0 + (evs + d.events) == events + d.events;
      } else {
        assert d0 == Drained(evs, rb.Contents());
        return;
      }
    }
  }

  /** On the wire: the start code is the number 1, and a `PadInfo` is marked by its top bit and its 12 bytes. */
  lemma {:induction false} WireMarks(info: seq<byte>)
    requires |info| == 8
    ensures START_CODE == U32(1)
    ensures Wire(Pad(info)) == [128, 0, 0, 12] + info
  {
    assert U16(0x8000) == [128, 0] && U16(12) == [0, 12];
  }

  // ----- why cutting does not matter -----

  /** How many whole records the receiver takes out of the first `n` bytes of a stream. */
  ghost function Taken(rs: seq<Record>, n: int): (k: nat)
    ensures k <= |rs|
  {
    if rs == [] || n < 8 || n < |Wire(rs[0])| then 0 else 1 + Taken(rs[1..], n - |Wire(rs[0])|)
  }

  lemma {:induction false} UnpackShort(p: seq<byte>)
    requires |p| < 8
    ensures Unpack(p) == Unpacked(0, [], p)
  {
  }

  lemma {:induction false} DrainNothing()
    ensures Drain([]) == Drained([], [])
  {
  }

  lemma {:induction false} UnpackWhole(r: Record, rest: seq<byte>)
    requires |Wire(r) + rest| >= 8
    ensures var u := Unpack(Wire(r) + rest);
            u.len == |Wire(r)| && u.events == [EventOf(r)] && u.buf[u.len..] == rest
  {
    hide U32, ToU32;
    var buf := Wire(r) + rest;
    match r
    case Video(body) =>
      U32RoundTrip(4 + |body|, body + rest);
      assert buf == U32(4 + |body|) + (body + rest);
      assert buf[4..] == body + rest;
      assert (START_CODE + buf[4..])[..4 + |body|] == START_CODE + body;
    case Pad(info) =>
      U32RoundTrip(PAD_MARK, info + rest);
      assert buf == U32(PAD_MARK) + (info + rest);
      assert PAD_MARK % 0x100_0000 == 12;
      assert buf[..12] == Wire(r);
  }

  lemma {:induction false} UnpackPartial(r: Record, p: seq<byte>)
    requires p <= Wire(r) && p != Wire(r)
    ensures Unpack(p) == Unpacked(0, [], p)
  {
    if |p| >= 8 {
      var n := match r case Video(body) => 4 + |body| case Pad(info) => PAD_MARK;
      U32RoundTrip(n, Wire(r)[4..]);
      assert U32(n) + Wire(r)[4..] == Wire(r);
      assert ToU32(p) == ToU32(Wire(r));
    }
  }

  /** Draining any prefix of a stream yields exactly the events of the records taken, and keeps the rest. */
  lemma {:induction false} DrainPrefix(rs: seq<Record>, p: seq<byte>)
    requires p <= Stream(rs)
    ensures var k := Taken(rs, |p|);
            |Stream(rs[..k])| <= |p| && Drain(p) == Drained(Events(rs[..k]), p[|Stream(rs[..k])|..])
    decreases |rs|
  {
    hide Wire, EventOf, Unpack, Drain;
    var k := Taken(rs, |p|);
    if p == [] || rs == [] {
      DrainNothing();
      assert rs[..k] == [];
    } else if k == 0 {
      assert rs[..k] == [];
      var w := Wire(rs[0]);
      if |p| < |w| {
        assert p <= w by { assert Stream(rs)[..|p|] == w[..|p|]; }
        UnpackPartial(rs[0], p);
      } else {
        UnpackShort(p);
      }
      DrainStep(p, Unpack(p));
    } else {
      var w, rest := Wire(rs[0]), p[|Wire(rs[0])|..];
      assert p == w + rest by { assert p[..|w|] == Stream(rs)[..|w|]; }
      assert rest <= Stream(rs[1..]) by { assert rest == Stream(rs)[|w|..|p|]; }
      UnpackWhole(rs[0], rest);
      DrainStep(p, Unpack(p));
      DrainPrefix(rs[1..], rest);
      assert rs[..k][1..] == rs[1..][..k - 1];
    }
  }

  lemma {:induction false} StreamAppend(a: seq<Record>, b: seq<Record>)
    ensures Stream(a + b) == Stream(a) + Stream(b)
    ensures Events(a + b) == Events(a) + Events(b)
    decreases |a|
  {
    if a == [] {
      assert a + b == b;
    } else {
      assert (a + b)[1..] == a[1..] + b;
      StreamAppend(a[1..], b);
    }
  }

  /** Counting in two steps: first up to `n`, then from the record reached there. */
  lemma {:induction false} TakenMore(rs: seq<Record>, n: nat, m: nat)
    requires n <= m
    ensures var k := Taken(rs, n);
            |Stream(rs[..k])| <= n && Taken(rs, m) == k + Taken(rs[k..], m - |Stream(rs[..k])|)
    decreases |rs|
  {
    hide *;
    var k := Taken(rs, n);
    var a, b := rs[..k], rs[k..];
    TakenStep(rs, n);
    TakenStep(rs, m);
    StreamStep(a);
    if k > 0 {
      TakenMore(rs[1..], n - |Wire(rs[0])|, m - |Wire(rs[0])|);
      assert rs[1..][..k - 1] == a[1..] && rs[1..][k - 1..] == b;
    } else {
      assert b == rs;
    }
  }

  lemma {:induction false} TakenStep(rs: seq<Record>, n: int)
    ensures Taken(rs, n) == if rs == [] || n < 8 || n < |Wire(rs[0])| then 0
                            else 1 + Taken(rs[1..], n - |Wire(rs[0])|)
  {
  }

  lemma {:induction false} StreamStep(rs: seq<Record>)
    ensures Stream(rs) == if rs == [] then [] else Wire(rs[0]) + Stream(rs[1..])
  {
  }

  /** Draining what came so far, then its leftovers with the next chunk, is draining all at once. */
  lemma {:induction false} DrainMore(rs: seq<Record>, p: seq<byte>, c: seq<byte>)
    requires p + c <= Stream(rs)
    ensures var d, e := Drain(p), Drain(Drain(p).rest + c);
            Drain(p + c) == Drained(d.events + e.events, e.rest)
  {
    hide *;
    var n, m := |p|, |p + c|;
    var k := Taken(rs, n);
    var a, b := rs[..k], rs[k..];
    assert rs == a + b;
    StreamAppend(a, b);
    TakenMore(rs, n, m);
    assert p <= Stream(rs) by { assert p == (p + c)[..n]; }
    DrainPrefix(rs, p);
    DrainPrefix(rs, p + c);
    var size := |Stream(a)|;
    var q := p[size..] + c;
    assert q == (p + c)[size..];
    assert q <= Stream(b) by { assert Stream(b) == Stream(rs)[size..]; }
    DrainPrefix(b, q);
    var k' := Taken(b, |q|);
    assert rs[..k + k'] == a + b[..k'];
    StreamAppend(a, b[..k']);
  }

  lemma {:induction false} LongEnough(rs: seq<Record>)
    requires rs != [] && |Wire(rs[|rs| - 1])| >= 8
    ensures |Stream(rs)| >= 8
    decreases |rs|
  {
    StreamStep(rs);
    if |rs| > 1 {
      LongEnough(rs[1..]);
    }
  }

  /** Nothing stays behind once the last record is long enough to be looked at. */
  lemma {:induction false} TakenAll(rs: seq<Record>)
    requires rs != [] ==> |Wire(rs[|rs| - 1])| >= 8
    ensures Taken(rs, |Stream(rs)|) == |rs|
    decreases |rs|
  {
    hide *;
    TakenStep(rs, |Stream(rs)|);
    StreamStep(rs);
    if |rs| > 0 {
      LongEnough(rs);
      TakenAll(rs[1..]);
    }
  }

  /** The receiver over a whole list of chunks. */
  ghost function Receive(buf: seq<byte>, chunks: seq<seq<byte>>): Drained
    decreases |chunks|
  {
    if chunks == [] then Drained([], buf)
    else
      var d := Drain(buf + chunks[0]);
      var e := Receive(d.rest, chunks[1..]);
      Drained(d.events + e.events, e.rest)
  }

  lemma {:induction false} ReceiveFrom(rs: seq<Record>, p: seq<byte>, chunks: seq<seq<byte>>)
    requires p + Concat(chunks) <= Stream(rs)
    ensures var d, e := Drain(p), Receive(Drain(p).rest, chunks);
            Drain(p + Concat(chunks)) == Drained(d.events + e.events, e.rest)
    decreases |chunks|
  {
    hide Drain, Stream, Wire, Unpack;
    var d := Drain(p);
    if chunks != [] {
      var c, tail := chunks[0], chunks[1..];
      assert p + Concat(chunks) == (p + c) + Concat(tail);
      assert p + c <= Stream(rs) by { assert p + c == (p + Concat(chunks))[..|p + c|]; }
      DrainMore(rs, p, c);
      ReceiveFrom(rs, p + c, tail);
      var e, f := Drain(d.rest + c), Receive(Drain(d.rest + c).rest, tail);
      assert (d.events + e.events) + f.events == d.events + (e.events + f.events);
    } else {
      assert p + Concat(chunks) == p;
      assert d.events + [] == d.events;
    }
  }

  /** For every way of cutting a stream into chunks, the receiver sees every record once, in order. */
  lemma {:induction false} CutIndependence(rs: seq<Record>, chunks: seq<seq<byte>>)
    requires rs != [] ==> |Wire(rs[|rs| - 1])| >= 8
    requires Concat(chunks) == Stream(rs)
    ensures Receive([], chunks) == Drained(Events(rs), [])
  {
    var all := Stream(rs);
    assert [] + Concat(chunks) == all;
    ReceiveFrom(rs, [], chunks);
    TakenAll(rs);
    DrainPrefix(rs, all);
    assert rs[..|rs|] == rs;
    assert [] + Receive([], chunks).events == Receive([], chunks).events;
  }

  /** What is left over is shorter than a record, so it leaves room in a buffer that holds one. */
  lemma {:induction false} RestFits(rs: seq<Record>, p: seq<byte>, capacity: nat)
    requires capacity >= 8 && p <= Stream(rs)
    requires forall r :: r in rs ==> |Wire(r)| <= capacity
    ensures |Drain(p).rest| < capacity
  {
    hide Drain, Stream, Wire, Unpack, Events;
    var k := Taken(rs, |p|);
    var a, b := rs[..k], rs[k..];
    assert rs == a + b;
    StreamAppend(a, b);
    TakenMore(rs, |p|, |p|);
    DrainPrefix(rs, p);
    assert Taken(b, |p| - |Stream(a)|) == 0;
    if b != [] {
      assert b[0] == rs[k] && rs[k] in rs;
    } else {
      assert a == rs;
    }
  }

  /** What the leading positive numbers of `cuts` add up to: what a socket offers before it has no more. */
  function Offered(cuts: seq<int>): nat {
    if cuts == [] || cuts[0] <= 0 then 0 else cuts[0] + Offered(cuts[1..])
  }

  /** How many they are, and whether an error follows them. */
  function Steps(cuts: seq<int>): nat {
    if cuts == [] || cuts[0] <= 0 then 0 else 1 + Steps(cuts[1..])
  }

  predicate EndsInError(cuts: seq<int>) {
    cuts != [] && if cuts[0] > 0 then EndsInError(cuts[1..]) else cuts[0] < 0
  }

  predicate NonNegative(cuts: seq<int>) {
    forall i :: 0 <= i < |cuts| ==> cuts[i] >= 0
  }

  lemma {:induction false} NoErrorEnds(cuts: seq<int>)
    requires NonNegative(cuts)
    ensures !EndsInError(cuts)
    decreases |cuts|
  {
    if cuts != [] {
      NoErrorEnds(cuts[1..]);
    }
  }

  lemma {:induction false} OfferedStep(cuts: seq<int>, i: nat)
    requires i < |cuts|
    ensures Offered(cuts[i..]) == if cuts[i] <= 0 then 0 else cuts[i] + Offered(cuts[i + 1..])
    ensures Steps(cuts[i..]) == if cuts[i] <= 0 then 0 else 1 + Steps(cuts[i + 1..])
    ensures EndsInError(cuts[i..]) <==> if cuts[i] > 0 then EndsInError(cuts[i + 1..]) else cuts[i] < 0
  {
    assert cuts[i..][1..] == cuts[i + 1..];
  }

  /**
   `l1recv` while the bytes `incoming` arrive behind the bytes `p` read before. Each read takes
   at most the free space and at most what `cuts` offers; a negative result is an error and ends
   the connection. The buffer never runs full, so the exit for an empty space is unreachable, and
   the outcome depends only on how much was read: all that was offered, unless a read was limited
   by the free space, and at least a byte for every read that was offered any.
   */
  method L1Recv(rb: BufferRef, incoming: seq<byte>, cuts: seq<int>, ghost rs: seq<Record>, ghost p: seq<byte>)
    returns (used: nat, events: seq<Event>, ok: bool, ghost limited: bool)
    requires rb.Valid() && rb.mem.Length >= 8
    requires forall r :: r in rs ==> |Wire(r)| <= rb.mem.Length
    requires p + incoming <= Stream(rs)
    requires rb.Contents() == Drain(p).rest
    modifies rb`len, rb.mem
    ensures rb.Valid() && used <= |incoming|
    ensures Drain(p + incoming[..used]).events == Drain(p).events + events
    ensures rb.Contents() == if ok then Drain(p + incoming[..used]).rest else []
    ensures NonNegative(cuts) ==> ok
    ensures Min(|incoming|, Steps(cuts)) <= used <= Min(|incoming|, Offered(cuts))
    ensures !limited ==> used == Min(|incoming|, Offered(cuts))
    ensures limited ==> Limited(rb.mem.Length, p + incoming[..used], cuts)
    ensures used < |incoming| ==> (ok <==> !EndsInError(cuts))
  {
    hide Drain, Stream, Wire, Unpack, Offered, Steps, EndsInError, NonNegative, Limited;
    used, events, ok, limited := 0, [], true, false;
    assert p + incoming[..0] == p && cuts[0..] == cuts;
    OfferedEmpty();
    var i := 0;
    while i < |cuts|
      invariant rb.Valid() && used <= |incoming| && i <= |cuts|
      invariant Drain(p + incoming[..used]) == Drained(Drain(p).events + events, rb.Contents())
      invariant i <= used && Steps(cuts) == i + Steps(cuts[i..])
      invariant used + Offered(cuts[i..]) <= Offered(cuts)
      invariant !limited ==> used == |incoming| || used + Offered(cuts[i..]) == Offered(cuts)
      invariant EndsInError(cuts) <==> EndsInError(cuts[i..])
      invariant limited ==> Limited(rb.mem.Length, p + incoming[..used], cuts)
    {
      ghost var q := p + incoming[..used];
      PrefixOf(p, incoming, used, Stream(rs));
      RestFits(rs, q, rb.mem.Length);
      OfferedStep(cuts, i);
      var space := rb.mem.Length - rb.len;
      assert space != 0;
      if cuts[i] < 0 {
        NotAllGood(cuts, i);
        rb.len := 0;
        assert rb.Contents() == [];
        return used, events, false, limited;
      }
      var k := Min(cuts[i], Min(space, |incoming| - used));
      if k == 0 {
        break;
      }
      if space < cuts[i] {
        limited := true;
        IsLimited(rb.mem.Length, q, cuts, i);
      }
      if limited {
        LimitedMore(rb.mem.Length, q, incoming[used..used + k], cuts);
      }
      var evs := ReadSome(rb, incoming[used..used + k]);
      PrefixOf(p, incoming, used + k, Stream(rs));
      assert p + incoming[..used + k] == q + incoming[used..used + k];
      DrainMore(rs, q, incoming[used..used + k]);
      events := events + evs;
      used := used + k;
      i := i + 1;
    }
    if i == |cuts| {
      assert cuts[i..] == [];
    }
  }

  /** At some time the free space of the buffer was less than a read was offered. */
  ghost predicate Limited(size: int, seen: seq<byte>, cuts: seq<int>) {
    exists k: int, i: int :: 0 <= k <= |seen| && 0 <= i < |cuts| && size - |Drain(seen[..k]).rest| < cuts[i]
  }

  lemma {:induction false} IsLimited(size: int, seen: seq<byte>, cuts: seq<int>, i: nat)
    requires i < |cuts| && size - |Drain(seen).rest| < cuts[i]
    ensures Limited(size, seen, cuts)
  {
    assert seen[..|seen|] == seen;
  }

  lemma {:induction false} LimitedMore(size: int, seen: seq<byte>, more: seq<byte>, cuts: seq<int>)
    requires Limited(size, seen, cuts)
    ensures Limited(size, seen + more, cuts)
  {
    hide Drain;
    var k: int, i: int :| 0 <= k <= |seen| && 0 <= i < |cuts| && size - |Drain(seen[..k]).rest| < cuts[i];
    assert (seen + more)[..k] == seen[..k];
  }

  lemma {:induction false} OfferedEmpty()
    ensures Offered([]) == Steps([]) == 0 && !EndsInError([])
  {
  }

  lemma {:induction false} NotAllGood(cuts: seq<int>, i: nat)
    requires i < |cuts| && cuts[i] < 0
    ensures !NonNegative(cuts)
  {
  }

  /** One successful read: the bytes land behind the filled part, are committed and processed. */
  method ReadSome(rb: BufferRef, chunk: seq<byte>) returns (events: seq<Event>)
    requires rb.Valid() && |chunk| <= rb.mem.Length - rb.len
    modifies rb`len, rb.mem
    ensures rb.Valid() && Drained(events, rb.Contents()) == Drain(old(rb.Contents()) + chunk)
  {
    ghost var before := rb.Contents();
    forall j | 0 <= j < |chunk| {
      rb.mem[rb.len + j] := chunk[j];
    }
    rb.Commit(|chunk|);
    assert rb.Contents() == before + chunk;
    events := ProcessRecvd(rb);
  }

  lemma {:induction false} PrefixOf(p: seq<byte>, s: seq<byte>, n: nat, all: seq<byte>)
    requires n <= |s| && p + s <= all
    ensures p + s[..n] <= all
  {
    assert p + s[..n] == (p + s)[..|p| + n];
  }

  function Min(a: nat, b: nat): nat { if a < b then a else b }

  // ----- the sender -----

  /** The message the server queues for an encoder frame. */
  function ServerMessage(frame: seq<byte>, info: seq<byte>): seq<byte>
    requires |frame| >= 4 && ValidRecord(Video(frame[4..])) && |info| == 8
  {
    Stream([Video(frame[4..]), Pad(info)])
  }

  lemma {:induction false} TwoRecords(a: Record, b: Record)
    ensures Stream([a, b]) == Wire(a) + Wire(b)
    ensures Events([a, b]) == [EventOf(a), EventOf(b)]
  {
    assert [a, b][1..] == [b] && [b][1..] == [];
    assert Stream([b]) == Wire(b) + [];
    assert Events([b]) == [EventOf(b)] + [];
  }

  /**
   `BufferQueue::done` on a filled buffer: the start code becomes the length, and a `PadInfo`
   is appended. The source exits on a buffer that does not begin with a start code.
   */
  method SealMessage(j: BufferRef, info: seq<byte>)
    requires j.Valid() && j.len >= 4 && j.len < 0x100_0000 && j.Contents()[..4] == START_CODE
    requires |info| == 8 && j.len + 12 <= j.mem.Length
    modifies j`len, j.mem
    ensures j.Valid() && j.Contents() == ServerMessage(old(j.Contents()), info)
  {
    ghost var frame := j.Contents();
    var len4 := U32(j.len);
    forall i | 0 <= i < 4 {
      j.mem[i] := len4[i];
    }
    assert j.Contents() == U32(|frame|) + frame[4..];
    j.Put(U32(PAD_MARK) + info);
    TwoRecords(Video(frame[4..]), Pad(info));
    assert j.Contents() == Wire(Video(frame[4..])) + Wire(Pad(info));
  }

  /** An encoder frame with its start code, and the idx and time stamp bytes of its `PadInfo`. */
  datatype AnyFrame = FrameWithInfo(bytes: seq<byte>, info: seq<byte>) {
    predicate Valid() {
      4 <= |bytes| < 0x100_0000 && bytes[..4] == START_CODE && |info| == 8
    }
  }

  type EncodedFrame = f: AnyFrame | f.Valid() witness FrameWithInfo([0, 0, 0, 1], [0, 0, 0, 0, 0, 0, 0, 0])

  function Message(f: EncodedFrame): seq<byte> {
    ServerMessage(f.bytes, f.info)
  }

  function Messages(fs: seq<EncodedFrame>): seq<seq<byte>> {
    if fs == [] then [] else [Message(fs[0])] + Messages(fs[1..])
  }

  /** What the client should see of each frame: the frame itself, and its `PadInfo` record. */
  function Seen(fs: seq<EncodedFrame>): seq<Event> {
    if fs == [] then [] else [Frame(fs[0].bytes), Feedback(U32(PAD_MARK) + fs[0].info)] + Seen(fs[1..])
  }

  function Records(fs: seq<EncodedFrame>): seq<Record> {
    if fs == [] then [] else [Video(fs[0].bytes[4..]), Pad(fs[0].info)] + Records(fs[1..])
  }

  lemma {:induction false} RecordsOf(fs: seq<EncodedFrame>)
    ensures Stream(Records(fs)) == Concat(Messages(fs)) && Events(Records(fs)) == Seen(fs)
    ensures fs != [] ==> Records(fs) != [] && |Wire(Records(fs)[|Records(fs)| - 1])| == 12
    decreases |fs|
  {
    if fs != [] {
      var f := fs[0];
      var two: seq<Record> := [Video(f.bytes[4..]), Pad(f.info)];
      RecordsOf(fs[1..]);
      StreamAppend(two, Records(fs[1..]));
      TwoRecords(two[0], two[1]);
      assert START_CODE + f.bytes[4..] == f.bytes;
      assert Messages(fs)[1..] == Messages(fs[1..]);
    }
  }

  /** End to end: however the bytes of the messages are cut, the client sees every frame once, in order. */
  lemma {:induction false} StreamRoundTrip(fs: seq<EncodedFrame>, chunks: seq<seq<byte>>)
    requires Concat(chunks) == Concat(Messages(fs))
    ensures Receive([], chunks) == Drained(Seen(fs), [])
  {
    RecordsOf(fs);
    CutIndependence(Records(fs), chunks);
  }

  lemma {:induction false} SlicesJoin<T>(m: seq<T>, i: nat, j: nat, k: nat)
    requires i <= j <= k <= |m|
    ensures m[i..j] + m[j..k] == m[i..k] && m[j..|m|] == m[j..] && m[i..|m|] == m[i..]
  {
  }

  /** The sending side of the stream path: a queue of messages and a position in the current one. */
  class StreamTx {
    var queue: seq<seq<byte>>
    var current: seq<byte>
    var sending: bool  // tx_p_ is set
    var pos: nat

    ghost predicate Valid()
      reads this
    {
      (sending ==> pos < |current|) && forall i :: 0 <= i < |queue| ==> queue[i] != []
    }

    /** What is left of the message being sent. */
    ghost function Left(): seq<byte>
      requires Valid()
      reads this
    {
      if sending then current[pos..] else []
    }

    /** The bytes still to be written. */
    ghost function Unsent(): seq<byte>
      requires Valid()
      reads this
    {
      Left() + Concat(queue)
    }

    constructor (messages: seq<seq<byte>>)
      requires forall i :: 0 <= i < |messages| ==> messages[i] != []
      ensures Valid() && Unsent() == Concat(messages)
    {
      queue, current, sending, pos := messages, [], false, 0;
    }

    /**
     `l1send`: each write takes as many bytes of the current message as the socket likes, and so
     all that the socket offers, up to the end of the message; a negative result is an error, and
     the rest of the message is given up.
     */
    method L1Send(cuts: seq<int>) returns (out: seq<byte>, ok: bool, ghost lost: seq<byte>)
      requires Valid()
      modifies this`sending, this`pos
      ensures Valid() && old(Left()) == out + lost + Left()
      ensures if ok then lost == [] else !sending
      ensures NonNegative(cuts) ==> ok
      ensures |out| == Min(|old(Left())|, Offered(cuts))
      ensures ok <==> |out| == |old(Left())| || !EndsInError(cuts)
    {
      hide Offered, EndsInError, NonNegative, Concat;
      out, ok, lost := [], true, [];
      if !sending {
        return;
      }
      ghost var start := pos;
      OfferedEmpty();
      assert cuts[0..] == cuts && current[start..start] == [];
      var i := 0;
      while i < |cuts| && sending
        invariant i <= |cuts| && start <= pos < |current|
        invariant out == current[start..if sending then pos else |current|]
        invariant sending ==> pos - start + Offered(cuts[i..]) == Offered(cuts)
        invariant !sending ==> |current| - start <= Offered(cuts)
        invariant EndsInError(cuts) <==> EndsInError(cuts[i..])
      {
        OfferedStep(cuts, i);
        var xlen := |current| - pos;
        if cuts[i] < 0 {
          NotAllGood(cuts, i);
          lost := current[pos..];
          SlicesJoin(current, start, pos, |current|);
          sending, ok := false, false;
          return;
        }
        var n := Min(cuts[i], xlen);
        if n == 0 {
          break;
        }
        SlicesJoin(current, start, pos, pos + n);
        out := out + current[pos..pos + n];
        if n == xlen {
          sending := false;
        } else {
          pos := pos + n;
        }
        i := i + 1;
      }
      if i == |cuts| {
        assert cuts[i..] == [];
      }
      SlicesJoin(current, start, if sending then pos else |current|, |current|);
    }

    /** The message `trysendx` sends from: the current one, or else the next of the queue. */
    ghost function Message(): seq<byte>
      requires Valid()
      reads this
    {
      if sending || queue == [] then Left() else queue[0]
    }

    /**
     `trysendx`: bytes leave in order, none twice, none skipped, whatever the write sizes; only an
     error gives up the rest of the current message. A message is taken off the queue when none is
     being sent, and what is offered is sent of it.
     */
    method TrySendX(cuts: seq<int>) returns (out: seq<byte>, ok: bool, ghost lost: seq<byte>)
      requires Valid()
      modifies this
      ensures Valid() && old(Unsent()) == out + lost + Unsent()
      ensures if ok then lost == [] else !sending
      ensures NonNegative(cuts) ==> ok
      ensures queue == if old(sending) || old(queue) == [] then old(queue) else old(queue)[1..]
      ensures |out| == Min(|old(Message())|, Offered(cuts))
      ensures ok <==> |out| == |old(Message())| || !EndsInError(cuts)
    {
      ghost var m := Message();
      if !sending && queue != [] {
        current, queue, pos, sending := queue[0], queue[1..], 0, true;
      }
      assert Left() == m;
      ghost var left, rest := Left(), Concat(queue);
      assert left + rest == old(Unsent());
      hide Concat;
      out, ok, lost := L1Send(cuts);
      AppendAssoc(out + lost, Left(), rest);
    }
  }

  // ----- both ends of a connection -----

  /** What the socket does in one round: the results of writes, and of reads. */
  datatype Round = Round(written: seq<int>, taken: seq<int>)

  lemma {:induction false} RecordsFit(fs: seq<EncodedFrame>, size: nat)
    requires size >= 12 && forall f :: f in fs ==> |f.bytes| <= size
    ensures forall r :: r in Records(fs) ==> |Wire(r)| <= size
    decreases |fs|
  {
    if fs != [] {
      assert fs[0] in fs;
      RecordsFit(fs[1..], size);
      var two: seq<Record> := [Video(fs[0].bytes[4..]), Pad(fs[0].info)];
      assert forall r :: r in two ==> |Wire(r)| <= size;
    }
  }

  predicate NoError(round: Round) {
    NonNegative(round.written) && NonNegative(round.taken)
  }

  /** The socket takes and has something in this round. */
  predicate Offers(round: Round) {
    round.written != [] && round.written[0] > 0 && round.taken != [] && round.taken[0] > 0
  }

  lemma {:induction false} OffersSome(round: Round)
    requires Offers(round)
    ensures Offered(round.written) > 0 && Steps(round.taken) > 0
  {
  }

  lemma {:induction false} UnsentSome(tx: StreamTx)
    requires tx.Valid()
    ensures tx.Unsent() != [] ==> tx.Message() != []
  {
  }

  /** The server's part of a round: more bytes behind the `wire` written before. */
  method WriteRound(tx: StreamTx, cuts: seq<int>, wire: seq<byte>, ghost total: seq<byte>)
    returns (all: seq<byte>, ok: bool)
    requires tx.Valid() && wire + tx.Unsent() == total
    modifies tx
    ensures tx.Valid() && wire <= all <= total && (ok ==> all + tx.Unsent() == total)
    ensures NonNegative(cuts) ==> ok
    ensures Offered(cuts) > 0 && wire != total ==> |all| > |wire|
  {
    UnsentSome(tx);
    hide Concat, Offered, EndsInError, NonNegative, StreamTx.Valid, StreamTx.Unsent, StreamTx.Message;
    assert wire + [] == wire;
    var out, sent, lost := tx.TrySendX(cuts);
    Written(wire, out, lost, tx.Unsent());
    all, ok := wire + out, sent;
  }

  lemma {:induction false} Parted(wire: seq<byte>, all: seq<byte>, n: nat)
    requires wire <= all && n <= |wire|
    ensures all[..n] == wire[..n] && all[..n] + all[n..] == all
  {
  }

  lemma {:induction false} Joined(all: seq<byte>, n: nat, k: nat)
    requires n + k <= |all|
    ensures all[..n] + all[n..][..k] == all[..n + k]
  {
  }

  lemma {:induction false} Written(wire: seq<byte>, out: seq<byte>, lost: seq<byte>, rest: seq<byte>)
    ensures wire + (out + lost + rest) == wire + out + (lost + rest)
    ensures lost == [] ==> wire + (out + lost + rest) == wire + out + rest
  {
  }

  /** One round behind the bytes `wire` written before, of which `got` have been read. */
  method Exchange(tx: StreamTx, rb: BufferRef, round: Round, wire: seq<byte>, got: nat, ghost rs: seq<Record>)
    returns (all: seq<byte>, events: seq<Event>, n: nat, ok: bool)
    requires tx.Valid() && rb.Valid() && rb.mem.Length >= 8 && got <= |wire|
    requires forall r :: r in rs ==> |Wire(r)| <= rb.mem.Length
    requires wire + tx.Unsent() == Stream(rs) && rb.Contents() == Drain(wire[..got]).rest
    modifies tx, rb`len, rb.mem
    ensures tx.Valid() && rb.Valid() && wire <= all <= Stream(rs) && got + n <= |all|
    ensures Drain(all[..got + n]).events == Drain(wire[..got]).events + events
    ensures ok ==> all + tx.Unsent() == Stream(rs) && rb.Contents() == Drain(all[..got + n]).rest
    ensures NoError(round) ==> ok
    ensures Offers(round) && got < |Stream(rs)| ==> n > 0
  {
    if Offers(round) {
      OffersSome(round);
    }
    hide Drain, Stream, Wire, Concat, Offered, Steps, EndsInError, NonNegative, Limited;
    hide StreamTx.Valid, StreamTx.Unsent, StreamTx.Message, BufferRef.Valid, BufferRef.Contents;
    var sent, good;
    all, sent := WriteRound(tx, round.written, wire, Stream(rs));
    ghost var limited;
    ghost var before, rest := all[..got], all[got..];
    Parted(wire, all, got);
    n, events, good, limited := L1Recv(rb, all[got..], round.taken, rs, before);
    Joined(all, got, n);
    ok := sent && good;
  }

  /**
   The two loops against each other: the server writes and the client reads, each as much as the
   socket lets it, round after round. At any time the client has seen exactly the events of the
   bytes read so far, and when all has been written and read, every frame and record once.
   */
  method Transfer(fs: seq<EncodedFrame>, tx: StreamTx, rb: BufferRef, rounds: seq<Round>)
    returns (events: seq<Event>, got: nat, ok: bool)
    requires tx.Valid() && tx.Unsent() == Concat(Messages(fs))
    requires rb.Valid() && rb.Contents() == [] && rb.mem.Length >= 12
    requires forall f :: f in fs ==> |f.bytes| <= rb.mem.Length
    modifies tx, rb`len, rb.mem
    ensures tx.Valid() && rb.Valid() && got <= |Concat(Messages(fs))|
    ensures events == Drain(Concat(Messages(fs))[..got]).events
    ensures ok && got == |Concat(Messages(fs))| ==> events == Seen(fs) && rb.Contents() == []
    ensures (forall i :: 0 <= i < |rounds| ==> NoError(rounds[i])) ==> ok
    ensures (forall i :: 0 <= i < |rounds| ==> NoError(rounds[i]) && Offers(rounds[i]))
              && |rounds| >= |Concat(Messages(fs))|
            ==> got == |Concat(Messages(fs))| && events == Seen(fs)
  {
    hide Drain, Stream, Wire, Messages, Records, Concat, Seen, NoError, Offers;
    ghost var all, rs := Concat(Messages(fs)), Records(fs);
    RecordsOf(fs);
    RecordsFit(fs, rb.mem.Length);
    DrainEmpty();
    events, got, ok := [], 0, true;
    var wire, i := [], 0;
    assert wire[..0] == all[..0] == [] && wire + all == all;
    while i < |rounds| && ok
      invariant tx.Valid() && rb.Valid() && got <= |wire| && wire <= all
      invariant ok ==> wire + tx.Unsent() == all && rb.Contents() == Drain(wire[..got]).rest
      invariant events == Drain(wire[..got]).events
      invariant ok || exists j :: 0 <= j < |rounds| && !NoError(rounds[j])
      invariant i <= |rounds|
      invariant ok && (forall j :: 0 <= j < i ==> Offers(rounds[j])) ==> got >= Min(i, |all|)
    {
      var evs, n;
      wire, evs, n, ok := Exchange(tx, rb, rounds[i], wire, got, rs);
      events, got := events + evs, got + n;
      i := i + 1;
    }
    assert wire[..got] == all[..got];
    if got == |all| {
      assert all[..got] == all;
      WholeStream(fs);
    }
  }

  lemma {:induction false} DrainEmpty()
    ensures Drain([]) == Drained([], [])
  {
  }

  /** The whole stream drains to every frame and record, with nothing left. */
  lemma {:induction false} WholeStream(fs: seq<EncodedFrame>)
    ensures Drain(Concat(Messages(fs))) == Drained(Seen(fs), [])
  {
    RecordsOf(fs);
    var rs := Records(fs);
    DrainPrefix(rs, Stream(rs));
    TakenAll(rs);
    assert rs[..|rs|] == rs && Stream(rs)[|Stream(rs)|..] == [];
  }
}
