/** The ring buffer of io/KfifoBuffer.cpp: free-running 32-bit indices that wrap, a
    power-of-two buffer, and one producer and one consumer that may interleave. */
module Kfifo {
  import Arithmetic
  import opened Bytes

  const U32: nat := 0x1_0000_0000

  function Pow2(n: nat): (r: nat)
    ensures r > 0
  {
    if n == 0 then 1 else 2 * Pow2(n - 1)
  }

  /** The buffer size is between 1 KB and 64 MB (io/KfifoBuffer.cpp:18-22). */
  function SizeOf(sizePower: int): (r: nat) {
    Pow2(if sizePower < 10 then 10 else if sizePower > 26 then 26 else sizePower)
  }

  /** Such a size divides 2^32, which is why indices may wrap. */
  predicate SizeOk(size: nat) {
    1024 <= size <= 0x400_0000 && U32 % size == 0
  }

  lemma SizesOk(sizePower: int)
    ensures SizeOk(SizeOf(sizePower))
  {
    var p := if sizePower < 10 then 10 else if sizePower > 26 then 26 else sizePower;
    Powers();
    assert p in {10, 11, 12, 13, 14, 15, 16, 17, 18, 19, 20, 21, 22, 23, 24, 25, 26};
  }

  /** From 1 KB for 10 and less, the size doubles with the power, up to 64 MB for 26 and more. */
  lemma SizeDoubles(sizePower: int)
    ensures sizePower <= 10 ==> SizeOf(sizePower) == 1024
    ensures 10 <= sizePower < 26 ==> SizeOf(sizePower + 1) == 2 * SizeOf(sizePower)
    ensures sizePower >= 26 ==> SizeOf(sizePower) == 0x400_0000
  {
    Powers();
  }

  lemma Powers()
    ensures Pow2(10) == 1024 && Pow2(11) == 2048 && Pow2(12) == 4096 && Pow2(13) == 8192
    ensures Pow2(14) == 16384 && Pow2(15) == 32768 && Pow2(16) == 65536 && Pow2(17) == 131072
    ensures Pow2(18) == 262144 && Pow2(19) == 524288 && Pow2(20) == 1048576 && Pow2(21) == 2097152
    ensures Pow2(22) == 4194304 && Pow2(23) == 8388608 && Pow2(24) == 16777216 && Pow2(25) == 33554432
    ensures Pow2(26) == 67108864
  {
    assert Pow2(3) == 8;
    assert Pow2(6) == 64;
    assert Pow2(9) == 512;
    assert Pow2(12) == 4096;
    assert Pow2(15) == 32768;
    assert Pow2(18) == 262144;
    assert Pow2(21) == 2097152;
    assert Pow2(24) == 16777216;
  }

  // ---------------------------------------------------------------- wrapping indices

  lemma ModPlus(a: int, m: nat)
    requires m > 0
    ensures (a + m) % m == a % m
  {
    Arithmetic.DivMod(a + m, m, a / m + 1, a % m);
  }

  /** Wrapping an index at 2^32 does not change the slot it names. */
  lemma {:induction false} WrapKeepsSlot(x: nat, size: nat)
    requires size > 0 && U32 % size == 0
    ensures (x % U32) % size == x % size
    decreases x
  {
    if x >= U32 {
      WrapKeepsSlot(x - U32, size);
      ModPlus(x - U32, U32);
      var k := U32 / size;
      var q, r := (x - U32) / size, (x - U32) % size;
      assert x == (q + k) * size + r by {
        assert U32 == k * size;
        assert (q + k) * size == q * size + k * size;
      }
      Arithmetic.DivMod(x, size, q + k, r);
    }
  }

  /** The difference of two wrapped indices, taken in 32 bits, is the true difference. */
  lemma WrapDifference(w: nat, r: nat)
    requires r <= w < r + U32
    ensures ((w % U32) - (r % U32)) % U32 == w - r
  {
    var a, b := w / U32, r / U32;
    assert (w % U32) - (r % U32) == (b - a) * U32 + (w - r);
    Arithmetic.DivMod((w % U32) - (r % U32), U32, b - a, w - r);
  }

  lemma WrapAdvance(w: nat, n: nat)
    ensures ((w % U32) + n) % U32 == (w + n) % U32
  {
    var q, r := (w + n) / U32, (w + n) % U32;
    assert (w % U32) + n == (q - w / U32) * U32 + r;
    Arithmetic.DivMod((w % U32) + n, U32, q - w / U32, r);
  }

  /** Distinct positions less than a buffer apart have distinct slots. */
  lemma SlotsDistinct(i: nat, k: nat, size: nat)
    requires size > 0 && i < k < i + size
    ensures i % size != k % size
  {
    if i % size == k % size {
      Arithmetic.Distribute(k / size, i / size, size);
      assert k - i == (k / size - i / size) * size;
      Arithmetic.QuotientUnique(size, k / size - i / size, 0, 0, k - i);
    }
  }

  lemma SlotAfter(i: nat, n: nat, size: nat)
    requires size > 0
    ensures i % size + n < size ==> (i + n) % size == i % size + n
    ensures size <= i % size + n < 2 * size ==> (i + n) % size == i % size + n - size
  {
    if i % size + n < size { Arithmetic.DivMod(i + n, size, i / size, i % size + n); }
    if size <= i % size + n < 2 * size {
      Arithmetic.Distribute(i / size, -1, size);
      Arithmetic.DivMod(i + n, size, i / size + 1, i % size + n - size);
    }
  }

  // ---------------------------------------------------------------- what the buffer holds

  /** `log` is everything ever put, `taken` how many of its bytes were read: the unread
      ones lie in the buffer, each in the slot of its position. */
  ghost predicate Holds(raw: seq<byte>, size: nat, log: seq<byte>, taken: nat) {
    && SizeOk(size) && |raw| == size && taken <= |log| <= taken + size
    && forall i :: taken <= i < |log| ==> raw[i % size] == log[i]
  }

  /** The slot of byte `k` of a copy that starts in slot `base` and goes around. */
  function SlotOf(base: nat, k: nat, size: nat): (r: int) {
    if base + k < size then base + k else base + k - size
  }

  lemma SlotOfPosition(p: nat, k: nat, size: nat)
    requires SizeOk(size) && k < size
    ensures SlotOf((p % U32) % size, k, size) == (p + k) % size
    ensures 0 <= SlotOf((p % U32) % size, k, size) < size
  {
    WrapKeepsSlot(p, size);
    SlotAfter(p, k, size);
  }

  /** Storing `data` behind the unread bytes leaves them alone. */
  lemma StoreHolds(raw: seq<byte>, raw': seq<byte>, size: nat, log: seq<byte>, taken: nat, data: seq<byte>)
    requires Holds(raw, size, log, taken) && |raw'| == size && |log| + |data| <= taken + size
    requires forall k :: 0 <= k < |data| ==> raw'[(|log| + k) % size] == data[k]
    requires forall i :: taken <= i < |log| ==> raw'[i % size] == raw[i % size]
    ensures Holds(raw', size, log + data, taken)
  {
    forall i | taken <= i < |log + data| ensures raw'[i % size] == (log + data)[i] {
      if i < |log| { assert raw[i % size] == log[i]; }
      else { assert raw'[(|log| + (i - |log|)) % size] == data[i - |log|]; }
    }
  }

  class KfifoBuffer {
    const size: nat
    const raw: array<byte>
    var readIndex: nat
    var writeIndex: nat
    ghost var log: seq<byte>
    ghost var taken: nat

    ghost predicate Valid()
      reads this, raw
    {
      && raw.Length == size && Holds(raw[..], size, log, taken)
      && readIndex == taken % U32 && writeIndex == |log| % U32
    }

    /** The unread bytes, oldest first. */
    ghost function Contents(): seq<byte>
      reads this, raw
      requires Valid()
    {
      log[taken..]
    }

    constructor (sizePower: int)
      ensures Valid() && fresh(raw) && size == SizeOf(sizePower) && Contents() == [] && log == []
    {
      SizesOk(sizePower);
      size := SizeOf(sizePower);
      raw := new byte[SizeOf(sizePower)](_ => 0);
      readIndex, writeIndex := 0, 0;
      log, taken := [], 0;
    }

    /** size() and unusedSize() (io/KfifoBuffer.h:47-48). */
    method Used() returns (n: nat)
      requires Valid()
      ensures n == |Contents()| <= size
    {
      WrapDifference(|log|, taken);
      n := (writeIndex - readIndex) % U32;
    }

    method Unused() returns (n: nat)
      requires Valid()
      ensures n == size - |Contents()|
    {
      WrapDifference(|log|, taken);
      Negated(size, writeIndex, readIndex, |log| - taken);
      n := (size - writeIndex + readIndex) % U32;
    }

    /** The two memcpy calls of put and putn: up to the end of the buffer, then from its front. */
    method CopyAround(base: nat, buffer: seq<byte>, putLen: nat)
      requires raw.Length == size && base < size && putLen <= |buffer| && putLen <= size
      modifies raw
      ensures forall k :: 0 <= k < putLen ==> 0 <= SlotOf(base, k, size) < size && raw[SlotOf(base, k, size)] == buffer[k]
      ensures forall s :: 0 <= s < size && s < base && base + putLen <= s + size ==> raw[s] == old(raw[s])
      ensures forall s :: base + putLen <= s < size ==> raw[s] == old(raw[s])
    {
      var leftEnd := size - base;
      var firstPartLen := if putLen < leftEnd then putLen else leftEnd;
      forall i | 0 <= i < firstPartLen { raw[base + i] := buffer[i]; }
      forall i | 0 <= i < putLen - firstPartLen { raw[i] := buffer[firstPartLen + i]; }
    }

    /** Where an unread byte lies relative to the bytes that a copy writes. */
    lemma UnreadElsewhere(i: nat, putLen: nat)
      requires Valid() && taken <= i < |log| && |log| + putLen <= taken + size
      ensures var base, s := (|log| % U32) % size, i % size;
              if s < base then base + putLen <= s + size else base + putLen <= s
    {
      var base, s := (|log| % U32) % size, i % size;
      WrapKeepsSlot(|log|, size);
      var k := if s < base then s + size - base else s - base;
      if k < putLen {
        SlotsDistinct(i, |log| + k, size);
        SlotAfter(|log|, k, size);
      }
    }

    /** Copy, then publish by advancing the index. */
    method Store(buffer: seq<byte>, putLen: nat)
      requires Valid() && putLen <= |buffer| && |Contents()| + putLen <= size
      modifies this`writeIndex, this`log, raw
      ensures Valid() && log == old(log) + buffer[..putLen]
    {
      ghost var before, data := raw[..], buffer[..putLen];
      forall i | taken <= i < |log|
        ensures var base, s := (|log| % U32) % size, i % size;
                if s < base then base + putLen <= s + size else base + putLen <= s
      {
        UnreadElsewhere(i, putLen);
      }
      CopyAround(writeIndex % size, buffer, putLen);
      forall k | 0 <= k < |data| ensures raw[(|log| + k) % size] == data[k] {
        WrapKeepsSlot(|log|, size);
        SlotAfter(|log|, k, size);
        assert raw[SlotOf(writeIndex % size, k, size)] == buffer[k];
      }
      StoreHolds(before, raw[..], size, log, taken, data);
      WrapAdvance(|log|, putLen);
      log := log + data;
      writeIndex := (writeIndex + putLen) % U32;
    }

    /** put: as many bytes as fit. */
    method Put(buffer: seq<byte>) returns (putLen: nat)
      requires Valid() && |buffer| < U32
      modifies this`writeIndex, this`log, raw
      ensures Valid() && putLen == (if |buffer| < size - old(|Contents()|) then |buffer| else size - old(|Contents()|))
      ensures Contents() == old(Contents()) + buffer[..putLen] && log == old(log) + buffer[..putLen]
    {
      var leftSize := Unused();
      putLen := if |buffer| < leftSize then |buffer| else leftSize;
      Store(buffer, putLen);
    }

    /** putn: all or nothing. */
    method Putn(buffer: seq<byte>) returns (putLen: nat)
      requires Valid() && |buffer| < U32
      modifies this`writeIndex, this`log, raw
      ensures Valid() && putLen == (if |buffer| <= size - old(|Contents()|) then |buffer| else 0)
      ensures Contents() == old(Contents()) + buffer[..putLen] && log == old(log) + buffer[..putLen]
    {
      var leftSize := Unused();
      if |buffer| > leftSize { return 0; }
      putLen := |buffer|;
      Store(buffer, putLen);
    }

    /** The two memcpy calls of get and peek. */
    method Fetch(getLen: nat) returns (out: seq<byte>)
      requires Valid() && getLen <= |Contents()|
      ensures out == Contents()[..getLen]
    {
      var readIndexToEnd := size - readIndex % size;
      var firstPartLen := if getLen < readIndexToEnd then getLen else readIndexToEnd;
      var base := readIndex % size;
      out := raw[base..base + firstPartLen] + raw[..getLen - firstPartLen];
      forall k | 0 <= k < getLen ensures out[k] == Contents()[k] {
        SlotOfPosition(taken, k, size);
        assert raw[..][(taken + k) % size] == log[taken + k];
      }
    }

    method Peek(len: nat) returns (out: seq<byte>)
      requires Valid()
      ensures out == Contents()[..if len < |Contents()| then len else |Contents()|]
    {
      var usedSize := Used();
      out := Fetch(if len < usedSize then len else usedSize);
    }

    method Peekn(len: nat) returns (out: seq<byte>)
      requires Valid()
      ensures out == Contents()[..if len <= |Contents()| then len else 0]
    {
      var usedSize := Used();
      if len > usedSize { return []; }
      out := Fetch(len);
    }

    /** commitRead (io/KfifoBuffer.cpp:155-159): the index moves on, whatever the length; no
        more than the unread bytes may be named if the buffer is to stay valid. */
    method CommitRead(len: nat)
      requires Valid()
      modifies this`readIndex, this`taken
      ensures Valid() <==> len <= |old(Contents())|
      ensures Valid() ==> Contents() == old(Contents())[len..]
      ensures readIndex == (old(readIndex) + len) % U32
    {
      WrapAdvance(taken, len);
      readIndex := (readIndex + len) % U32;
      taken := taken + len;
    }

    method Get(len: nat) returns (out: seq<byte>)
      requires Valid()
      modifies this`readIndex, this`taken
      ensures Valid() && out == old(Contents())[..if len < |old(Contents())| then len else |old(Contents())|]
      ensures Contents() == old(Contents())[|out|..]
    {
      out := Peek(len);
      CommitRead(|out|);
    }

    method Getn(len: nat) returns (out: seq<byte>)
      requires Valid()
      modifies this`readIndex, this`taken
      ensures Valid() && out == old(Contents())[..if len <= |old(Contents())| then len else 0]
      ensures Contents() == old(Contents())[|out|..]
    {
      out := Peekn(len);
      CommitRead(|out|);
    }
  }

  lemma Negated(size: nat, w: nat, r: nat, n: nat)
    requires n <= size < U32 && (w - r) % U32 == n && w < U32 && r < U32
    ensures (size - w + r) % U32 == size - n
  {
  }
}
