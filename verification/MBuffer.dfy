/**
 The growing NAL unit buffer of android/jni-01/hgs.hpp: RTP header, start code and NAL unit in
 one block that is reallocated when it runs full.
 */
module MBuffer {
  import opened Bytes

  /** sizeof(rtp_header), and the offset of the NAL unit header behind it and the start code. */
  const RTP_HEADER: nat := 16
  const NAL: nat := RTP_HEADER + 4

  class MBuffer {
    var base: array?<byte>
    var size: nat
    var capacity: nat

    ghost predicate Valid()
      reads this
    {
      if base == null then size == 0 && capacity == 0
      else NAL < size <= capacity && base.Length == capacity
    }

    predicate Empty()
      reads this
    {
      size == 0
    }

    /** The NAL unit collected so far. */
    ghost function Nal(): (s: seq<byte>)
      requires Valid()
      reads this, base
    {
      if base == null then [] else base[NAL..size]
    }

    constructor ()
      ensures Valid() && Empty()
    {
      base, size, capacity := null, 0, 0;
    }

    constructor Init(rh: seq<byte>, nh: byte)
      requires |rh| == RTP_HEADER
      ensures Valid() && !Empty() && fresh(base) && Nal() == [nh] && base[..NAL] == rh + [0, 0, 0, 1]
    {
      var block := new byte[2048];
      forall i | 0 <= i < RTP_HEADER {
        block[i] := rh[i];
      }
      block[RTP_HEADER], block[RTP_HEADER + 1], block[RTP_HEADER + 2], block[RTP_HEADER + 3] := 0, 0, 0, 1;
      block[NAL] := nh;
      base, size, capacity := block, NAL + 1, 2048;
      new;
      assert base[..NAL] == rh + [0, 0, 0, 1];
      assert base[NAL..NAL + 1] == [nh];
    }

    /** Appends; grows by at least the bytes that do not fit, and never loses one. */
    method Put(p: seq<byte>)
      requires Valid() && !Empty()
      modifies this, base
      ensures Valid() && !Empty() && (base == old(base) || fresh(base))
      ensures Nal() == old(Nal()) + p && base[..NAL] == old(base[..NAL])
      ensures old(capacity) <= capacity && size == old(size) + |p|
      ensures if old(capacity) - old(size) >= |p| then capacity == old(capacity)
              else capacity == old(capacity) + (|p| + 2047) / 1024 * 1024 >= old(capacity) + |p| + 1024
    {
      var siz := |p|;
      if capacity - size < siz {
        capacity := capacity + (siz + 2047) / 1024 * 1024;
        assert capacity - size >= siz;
        base := Reallocated(base, size, capacity);
      }
      ghost var before := base[..size];
      forall i | 0 <= i < siz {
        base[size + i] := p[i];
      }
      size := size + siz;
      assert base[..size] == before + p;
      assert base[NAL..size] == before[NAL..] + p;
      assert base[..NAL] == before[..NAL];
    }

    /** `realloc` to a larger block. */
    static method Reallocated(block: array<byte>, used: nat, capacity: nat) returns (r: array<byte>)
      requires used <= block.Length <= capacity
      ensures fresh(r) && r.Length == capacity && r[..used] == block[..used]
    {
      r := new byte[capacity](_ => 0);
      forall i | 0 <= i < used {
        r[i] := block[i];
      }
    }

    /** Move assignment: the other buffer is left empty. */
    method MoveFrom(rhs: MBuffer)
      requires Valid() && rhs.Valid()
      modifies this, rhs
      ensures Valid() && rhs.Valid()
      ensures rhs == this ==> Nal() == old(Nal()) && base == old(base)
      ensures rhs != this ==> base == old(rhs.base) && Nal() == old(rhs.Nal()) && rhs.Empty()
    {
      if rhs != this {
        base, size, capacity := rhs.base, rhs.size, rhs.capacity;
        rhs.base, rhs.size, rhs.capacity := null, 0, 0;
      }
    }
  }
}
