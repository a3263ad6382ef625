/** The byte buffer of network/epoll/buffer.hpp: a filled prefix of a fixed block of memory. */
module Buffer {
  import opened Bytes

  class BufferRef {
    const mem: array<byte>
    var len: nat

    ghost predicate Valid()
      reads this
    {
      len <= mem.Length
    }

    ghost function Contents(): (s: seq<byte>)
      requires Valid()
      reads this, mem
      ensures |s| == len
    {
      mem[..len]
    }

    constructor (capacity: nat)
      ensures Valid() && fresh(mem) && mem.Length == capacity && Contents() == []
    {
      mem := new byte[capacity];
      len := 0;
    }

    /** The source exits when the bytes do not fit; here that is the caller's obligation. */
    method Put(p: seq<byte>)
      requires Valid() && |p| <= mem.Length - len
      modifies this`len, mem
      ensures Valid() && Contents() == old(Contents()) + p
    {
      forall i | 0 <= i < |p| {
        mem[len + i] := p[i];
      }
      len := len + |p|;
    }

    /** Accepts `n` bytes that a read has already placed behind the filled part. */
    method Commit(n: nat)
      requires Valid() && n <= mem.Length - len
      modifies this`len
      ensures Valid() && Contents() == mem[..old(len) + n]
    {
      len := len + n;
    }

    /** Drops `n` bytes from the front by moving the rest down. */
    method Consume(n: nat)
      requires Valid() && n <= len
      modifies this`len, mem
      ensures Valid() && Contents() == old(Contents())[n..]
    {
      if n > 0 && n < len {
        forall i | 0 <= i < len - n {
          mem[i] := mem[i + n];
        }
      }
      len := len - n;
    }
  }
}
