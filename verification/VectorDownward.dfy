/** flatbuffers/vector_downward.h: one allocation that holds the serialized bytes, growing
    from its end to its front, and a scratch pad, growing from its front. */
module VectorDownwards {
  import opened Bytes

  function Zeros(n: nat): (z: seq<byte>)
    ensures |z| == n
  {
    seq(n, _ => 0)
  }

  class VectorDownward {
    /** `buf_` with `reserved_` bytes; empty before the first allocation. */
    var buf: array<byte>
    var cur: nat
    var scratch: nat
    var size: nat
    const initialSize: nat
    const minalign: nat

    ghost predicate Valid()
      reads this
    {
      scratch <= cur <= buf.Length && size == buf.Length - cur && minalign > 0
    }

    /** The serialized bytes, front first. */
    ghost function Data(): (d: seq<byte>)
      requires Valid()
      reads this, buf
      ensures |d| == size
    {
      buf[cur..]
    }

    ghost function Scratch(): (s: seq<byte>)
      requires Valid()
      reads this, buf
      ensures |s| == scratch
    {
      buf[..scratch]
    }

    constructor (initialSize: nat, minalign: nat)
      requires minalign > 0
      ensures Valid() && Data() == [] && Scratch() == [] && fresh(buf)
    {
      this.initialSize, this.minalign := initialSize, minalign;
      buf := new byte[0];
      cur, scratch, size := 0, 0, 0;
    }

    /** reallocate (flatbuffers/vector_downward.h:269-284): both parts move, unchanged. */
    method Reallocate(len: nat)
      requires Valid()
      modifies this
      ensures Valid() && fresh(buf) && cur - scratch >= len
      ensures Data() == old(Data()) && Scratch() == old(Scratch())
    {
      var oldSize, oldScratchSize := size, scratch;
      var reserved := NewReserve(buf.Length, len);
      buf := ReallocateDownward(reserved, oldSize, oldScratchSize);
      cur := reserved - oldSize;
      scratch := oldScratchSize;
    }

    /** At least half as much again, rounded up to the alignment. */
    function NewReserve(oldReserved: nat, len: nat): (reserved: nat)
      requires minalign > 0
      ensures reserved >= oldReserved + len
    {
      var growth := if oldReserved != 0 then oldReserved / 2 else initialSize;
      var n := oldReserved + if len < growth then growth else len;
      assert (n + minalign - 1) / minalign * minalign + (n + minalign - 1) % minalign == n + minalign - 1;
      (n + minalign - 1) / minalign * minalign
    }

    /** memcpy_downward (flatbuffers/allocator.h:57-64). */
    method ReallocateDownward(newSize: nat, inUseBack: nat, inUseFront: nat) returns (p: array<byte>)
      requires newSize >= buf.Length >= inUseFront + inUseBack
      ensures fresh(p) && p.Length == newSize
      ensures p[newSize - inUseBack..] == buf[buf.Length - inUseBack..] && p[..inUseFront] == buf[..inUseFront]
    {
      p := new byte[newSize];
      CopyBack(p, inUseBack);
      CopyFront(p, inUseFront);
    }

    /** The last bytes go to the end of the new buffer. */
    method CopyBack(p: array<byte>, n: nat)
      requires p != buf && n <= buf.Length && n <= p.Length
      modifies p
      ensures p[p.Length - n..] == buf[buf.Length - n..]
    {
      Memcpy(p, p.Length - n, buf, buf.Length - n, n);
      assert p[p.Length - n..] == p[p.Length - n..p.Length - n + n];
      assert buf[buf.Length - n..] == buf[buf.Length - n..buf.Length - n + n];
    }

    /** The first bytes go to the start of the new buffer. */
    method CopyFront(p: array<byte>, n: nat)
      requires p != buf && n <= buf.Length && n <= p.Length
      modifies p
      ensures p[..n] == buf[..n] && p[n..] == old(p[n..])
    {
      Memcpy(p, 0, buf, 0, n);
      assert p[..n] == p[0..0 + n] && buf[..n] == buf[0..0 + n];
    }

    static method Memcpy(to: array<byte>, at: nat, from: array<byte>, start: nat, n: nat)
      requires at + n <= to.Length && start + n <= from.Length && to != from
      modifies to
      ensures to[at..at + n] == from[start..start + n]
      ensures forall k :: 0 <= k < to.Length && !(at <= k < at + n) ==> to[k] == old(to[k])
    {
      for i := 0 to n
        invariant to[at..at + i] == from[start..start + i]
        invariant forall k :: 0 <= k < to.Length && !(at <= k < at + i) ==> to[k] == old(to[k])
      {
        to[at + i] := from[start + i];
      }
    }

    method EnsureSpace(len: nat)
      requires Valid()
      modifies this
      ensures Valid() && cur - scratch >= len && (buf == old(buf) || fresh(buf))
      ensures Data() == old(Data()) && Scratch() == old(Scratch())
    {
      if len > cur - scratch { Reallocate(len); }
    }

    /** make_space (flatbuffers/vector_downward.h:150-157). */
    method MakeSpace(len: nat)
      requires Valid()
      modifies this
      ensures Valid() && (buf == old(buf) || fresh(buf)) && cur + len <= buf.Length
      ensures size == old(size) + len && Data()[len..] == old(Data()) && Scratch() == old(Scratch())
    {
      if len != 0 {
        EnsureSpace(len);
        cur := cur - len;
        size := size + len;
      }
    }

    /** push and push_small (flatbuffers/vector_downward.h:195-203). */
    method Push(bytes: seq<byte>)
      requires Valid()
      modifies this, buf
      ensures Valid() && (buf == old(buf) || fresh(buf))
      ensures Data() == bytes + old(Data()) && Scratch() == old(Scratch())
    {
      MakeSpace(|bytes|);
      for i := 0 to |bytes|
        modifies buf
        invariant Scratch() == old(Scratch()) && Data()[|bytes|..] == old(Data())
        invariant forall k :: cur <= k < cur + i ==> buf[k] == bytes[k - cur]
      {
        buf[cur + i] := bytes[i];
      }
    }

    /** fill and fill_big (flatbuffers/vector_downward.h:213-222). */
    method Fill(n: nat)
      requires Valid()
      modifies this, buf
      ensures Valid() && (buf == old(buf) || fresh(buf))
      ensures Data() == Zeros(n) + old(Data()) && Scratch() == old(Scratch())
    {
      MakeSpace(n);
      for i := 0 to n
        modifies buf
        invariant Scratch() == old(Scratch()) && Data()[n..] == old(Data())
        invariant forall k :: cur <= k < cur + i ==> buf[k] == 0
      {
        buf[cur + i] := 0;
      }
    }

    /** pop: the bytes pushed last go. */
    method Pop(n: nat)
      requires Valid() && n <= size
      modifies this`cur, this`size
      ensures Valid() && Data() == old(Data())[n..] && Scratch() == old(Scratch())
    {
      cur, size := cur + n, size - n;
    }

    method ScratchPush(bytes: seq<byte>)
      requires Valid()
      modifies this, buf
      ensures Valid() && (buf == old(buf) || fresh(buf))
      ensures Data() == old(Data()) && Scratch() == old(Scratch()) + bytes
    {
      EnsureSpace(|bytes|);
      for i := 0 to |bytes|
        modifies buf
        invariant Data() == old(Data()) && Scratch() == old(Scratch())
        invariant forall k :: scratch <= k < scratch + i ==> buf[k] == bytes[k - scratch]
      {
        buf[scratch + i] := bytes[i];
      }
      scratch := scratch + |bytes|;
    }

    method ScratchPop(n: nat)
      requires Valid() && n <= scratch
      modifies this`scratch
      ensures Valid() && Data() == old(Data()) && Scratch() == old(Scratch())[..|old(Scratch())| - n]
    {
      scratch := scratch - n;
    }

    method ClearScratch()
      requires Valid()
      modifies this`scratch
      ensures Valid() && Data() == old(Data()) && Scratch() == []
    {
      scratch := 0;
    }

    /** WriteScalar at a place among the serialized bytes. */
    method Write(at: nat, bytes: seq<byte>)
      requires Valid() && at + |bytes| <= size
      modifies buf
      ensures Valid() && Scratch() == old(Scratch())
      ensures Data() == old(Data())[..at] + bytes + old(Data())[at + |bytes|..]
    {
      for i := 0 to |bytes|
        modifies buf
        invariant Scratch() == old(Scratch())
        invariant forall k :: cur <= k < buf.Length && !(cur + at <= k < cur + at + i) ==> buf[k] == old(buf[k])
        invariant forall k :: cur + at <= k < cur + at + i ==> buf[k] == bytes[k - cur - at]
      {
        buf[cur + at + i] := bytes[i];
      }
    }
  }
}
