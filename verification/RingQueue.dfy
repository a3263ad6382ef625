/** The class `cycle_buffer_queue` itself, proved against the ring of values. */
module RingQueue {
  import opened Bytes
  import opened Ring

  class CycleBufferQueue {
    const bufs: array<Message>
    const capacity: nat
    var ip: nat
    var ialloc: nat
    var iusing: nat

    ghost predicate Valid()
      reads this, bufs
    {
      State().Valid() && forall i :: 0 <= i < bufs.Length ==> |bufs[i]| <= capacity
    }

    ghost function State(): Ring
      reads this, bufs
    {
      Ring(bufs[..], ip, ialloc, iusing)
    }

    constructor (count: nat, size: nat)
      requires count >= 2
      ensures Valid() && fresh(bufs) && capacity == size
      ensures State() == Ring(seq(count, _ => []), 0, count, count)
    {
      bufs, capacity := new Message[count](_ => []), size;
      ip, ialloc, iusing := 0, count, count;
      new;
      assert bufs[..] == seq(count, _ => []);
    }

    method Incr(i: nat) returns (j: nat)
      requires Valid()
      ensures j == State().Incr(i)
    {
      j := i + 1;
      if j == bufs.Length {
        j := 0;
      }
    }

    /** The exits of the source are the preconditions: nothing allocated, and not both candidates in use. */
    method Alloc(siz: nat) returns (i: nat)
      requires Valid() && !State().AllocFatal() && siz <= capacity
      modifies this`ip, this`ialloc, bufs
      ensures Valid() && State() == old(State()).Alloc() && i == ialloc
    {
      if ip == iusing {
        ip := Incr(ip);
        if ip == iusing {
          assert false;  // "gt1 using"
        }
      }
      bufs[ip] := [];
      ialloc := ip;
      i := ialloc;
    }

    method Put(p: seq<byte>)
      requires Valid() && ialloc < bufs.Length && |bufs[ialloc]| + |p| <= capacity
      modifies bufs
      ensures Valid() && State() == old(State()).Put(p)
    {
      bufs[ialloc] := bufs[ialloc] + p;
    }

    method Decr(i: nat) returns (j: nat)
      requires Valid() && i < bufs.Length
      ensures j == State().Decr(i)
    {
      j := if i == 0 then bufs.Length - 1 else i - 1;
    }

    /** `_findusable` from `p` round to `eop`, both included; `k` is the number of steps between them. */
    method FindUsable(p: nat, eop: nat, ghost k: nat) returns (i: nat)
      requires Valid() && p < bufs.Length && k < bufs.Length && eop == Around(State(), p, k)
      ensures i == State().FindUsable(p, k + 1)
    {
      var q: nat := p;
      ghost var left: nat := k;
      while q != eop
        invariant q < bufs.Length && left < bufs.Length && eop == Around(State(), q, left)
        invariant State().FindUsable(p, k + 1) == State().FindUsable(q, left + 1)
        decreases left
      {
        if q != ialloc && bufs[q] != [] {
          return q;
        }
        q := Incr(q);
        left := left - 1;
      }
      assert left == 0;
      if q != ialloc && bufs[q] != [] {
        return q;
      }
      return bufs.Length;
    }

    /**
     What `wait` does when no other thread interferes; then the second search, behind a timed wait
     on the condition variable, finds what the first one found.
     */
    method Wait(millis: nat) returns (j: nat)
      requires Valid() && !State().WaitFatal()
      modifies this`iusing
      ensures Valid() && State() == old(State()).Wait() && j == iusing
    {
      var eop := Decr(ip);
      j := FindUsable(ip, eop, bufs.Length - 1);
      if j == bufs.Length && millis > 0 {
        j := FindUsable(ip, eop, bufs.Length - 1);
      }
      iusing := j;
    }

    /** `done`: on the allocated slot it commits, on the slot in use it empties and gives back. */
    method Done(j: nat)
      requires Valid() && j < bufs.Length && !State().DoneFatal(j)
      modifies this`ip, this`ialloc, this`iusing, bufs
      ensures Valid()
      ensures old(State()).ialloc == j ==> State() == old(State()).Advance().Release()
      ensures old(State()).ialloc != j ==> State() == old(State()).Clear().Drop()
    {
      if j == ialloc {
        ip := Incr(j);
        ialloc := bufs.Length;
      } else {
        bufs[j] := [];
        iusing := bufs.Length;
      }
    }

    method Fail(j: nat)
      requires Valid() && j < bufs.Length && !State().DoneFatal(j)
      modifies this`ialloc, this`iusing
      ensures Valid()
      ensures old(State()).ialloc == j ==> State() == old(State()).Release()
      ensures old(State()).ialloc != j ==> State() == old(State()).Drop()
    {
      if j == ialloc {
        ialloc := bufs.Length;
      } else {
        iusing := bufs.Length;
      }
    }
  }
}
