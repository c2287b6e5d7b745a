/** The memory copies of lz4.c on an output buffer. Every copy may write past the end
    of what it was asked for, but never at or past index `lim`; the ghost sequence `t`
    says what the bytes below each index become. */
module Lz4Memory {
  import opened Bytes
  import opened Lz4Format

  /** The first `n` bytes of the buffer are those of `t`. */
  ghost predicate Agree(dst: array<byte>, t: seq<byte>, n: nat)
    reads dst
  {
    n <= dst.Length && n <= |t| && forall i :: 0 <= i < n ==> dst[i] == t[i]
  }

  /** Bytes `from..lim` of `t` repeat the bytes `delta` places earlier. */
  ghost predicate Repeats(t: seq<byte>, from: nat, lim: nat, delta: nat) {
    delta <= from && lim <= |t| && forall k :: from <= k < lim ==> t[k] == t[k - delta]
  }

  twostate predicate UntouchedFrom(dst: array<byte>, lim: nat)
    reads dst
  {
    forall i :: lim <= i < dst.Length ==> dst[i] == old(dst[i])
  }

  lemma RepeatsSum(t: seq<byte>, from: nat, lim: nat, a: nat, b: nat)
    requires Repeats(t, from, lim, a) && Repeats(t, from, lim, b)
    ensures Repeats(t, from + b, lim, a + b)
  {
    forall k | from + b <= k < lim ensures t[k] == t[k - (a + b)] {
      assert t[k] == t[k - b];
      assert t[k - b] == t[k - b - a];
    }
  }

  // ---------------------------------------------------------------- copies inside the buffer

  /** memcpy between disjoint regions of the buffer, the source below. */
  method Memcpy(dst: array<byte>, d: nat, s: nat, n: nat, ghost t: seq<byte>, ghost lim: nat)
    requires s + n <= d && d + n <= lim <= dst.Length
    requires Agree(dst, t, d) && Repeats(t, d, d + n, d - s)
    modifies dst
    ensures Agree(dst, t, d + n) && UntouchedFrom(dst, lim)
  {
    forall i | 0 <= i < n { dst[d + i] := dst[s + i]; }
    forall i | 0 <= i < d + n ensures dst[i] == t[i] {
      if d <= i { assert dst[i] == old(dst[s + (i - d)]) == t[i - (d - s)]; }
    }
  }

  /** Where strides of eight from `d` to `e` end: at least one is made. */
  function After8(d: nat, e: nat): (r: nat)
    ensures d + 8 <= r && e <= r && (r == d + 8 || r <= e + 7)
    decreases e - d
  {
    if e <= d + 8 then d + 8 else After8(d + 8, e)
  }

  /** LZ4_wildCopy8 (lz/lz4.c:446-454). */
  method WildCopy8(dst: array<byte>, d0: nat, s0: nat, e: nat, ghost t: seq<byte>, ghost lim: nat)
    requires s0 + 8 <= d0 && After8(d0, e) <= lim <= dst.Length
    requires Agree(dst, t, d0) && Repeats(t, d0, lim, d0 - s0)
    modifies dst
    ensures Agree(dst, t, After8(d0, e)) && UntouchedFrom(dst, lim)
  {
    var d, s := d0, s0;
    Memcpy(dst, d, s, 8, t, lim);
    d, s := d + 8, s + 8;
    while d < e
      invariant d0 + 8 <= d <= lim && d - s == d0 - s0 && After8(d - 8, e) == After8(d0, e)
      invariant Agree(dst, t, d) && UntouchedFrom(dst, lim)
    {
      Memcpy(dst, d, s, 8, t, lim);
      d, s := d + 8, s + 8;
    }
  }

  /** LZ4_wildCopy32 (lz/lz4.c:506-514): two 16-byte copies a step, for offsets >= 16. */
  method WildCopy32(dst: array<byte>, d0: nat, s0: nat, e: nat, ghost t: seq<byte>, ghost lim: nat)
    requires s0 + 16 <= d0 && d0 + 32 <= lim && e + 31 <= lim <= dst.Length
    requires Agree(dst, t, d0) && Repeats(t, d0, lim, d0 - s0)
    modifies dst
    ensures Agree(dst, t, e) && UntouchedFrom(dst, lim)
  {
    var d, s := d0, s0;
    Memcpy(dst, d, s, 16, t, lim);
    Memcpy(dst, d + 16, s + 16, 16, t, lim);
    d, s := d + 32, s + 32;
    while d < e
      invariant d0 + 32 <= d <= lim && d - s == d0 - s0
      invariant Agree(dst, t, d) && UntouchedFrom(dst, lim)
    {
      Memcpy(dst, d, s, 16, t, lim);
      Memcpy(dst, d + 16, s + 16, 16, t, lim);
      d, s := d + 32, s + 32;
    }
  }

  // ---------------------------------------------------------------- copies from another buffer

  method MemcpyFrom(dst: array<byte>, d: nat, src: seq<byte>, s: nat, n: nat, ghost t: seq<byte>, ghost lim: nat)
    requires s + n <= |src| && d + n <= lim <= dst.Length && d + n <= |t|
    requires Agree(dst, t, d) && forall k :: d <= k < d + n ==> t[k] == src[s + (k - d)]
    modifies dst
    ensures Agree(dst, t, d + n) && UntouchedFrom(dst, lim)
  {
    forall i | 0 <= i < n { dst[d + i] := src[s + i]; }
    forall i | 0 <= i < d + n ensures dst[i] == t[i] {
      if d <= i { assert dst[i] == src[s + (i - d)]; }
    }
  }

  method WildCopy8From(dst: array<byte>, d0: nat, src: seq<byte>, s0: nat, e: nat, ghost t: seq<byte>, ghost lim: nat)
    requires d0 <= e && d0 + 8 <= lim && e + 7 <= lim <= dst.Length && lim <= |t|
    requires s0 + 8 <= |src| && s0 + (e - d0) + 7 <= |src|
    requires Agree(dst, t, d0)
    requires forall k :: d0 <= k < lim && s0 + (k - d0) < |src| ==> t[k] == src[s0 + (k - d0)]
    modifies dst
    ensures Agree(dst, t, e) && UntouchedFrom(dst, lim)
  {
    var d, s := d0, s0;
    MemcpyFrom(dst, d, src, s, 8, t, lim);
    d, s := d + 8, s + 8;
    while d < e
      invariant d0 + 8 <= d <= lim && d - s == d0 - s0
      invariant Agree(dst, t, d) && UntouchedFrom(dst, lim)
    {
      MemcpyFrom(dst, d, src, s, 8, t, lim);
      d, s := d + 8, s + 8;
    }
  }

  method WildCopy32From(dst: array<byte>, d0: nat, src: seq<byte>, s0: nat, e: nat, ghost t: seq<byte>, ghost lim: nat)
    requires d0 <= e && d0 + 32 <= lim && e + 31 <= lim <= dst.Length && lim <= |t|
    requires s0 + 32 <= |src| && s0 + (e - d0) + 31 <= |src|
    requires Agree(dst, t, d0)
    requires forall k :: d0 <= k < lim && s0 + (k - d0) < |src| ==> t[k] == src[s0 + (k - d0)]
    modifies dst
    ensures Agree(dst, t, e) && UntouchedFrom(dst, lim)
  {
    var d, s := d0, s0;
    MemcpyFrom(dst, d, src, s, 16, t, lim);
    MemcpyFrom(dst, d + 16, src, s + 16, 16, t, lim);
    d, s := d + 32, s + 32;
    while d < e
      invariant d0 + 32 <= d <= lim && d - s == d0 - s0
      invariant Agree(dst, t, d) && UntouchedFrom(dst, lim)
    {
      MemcpyFrom(dst, d, src, s, 16, t, lim);
      MemcpyFrom(dst, d + 16, src, s + 16, 16, t, lim);
      d, s := d + 32, s + 32;
    }
  }

  // ---------------------------------------------------------------- literals

  /** The bytes of the run land after the output written so far. */
  lemma LiteralGoal(dst: array<byte>, src: seq<byte>, op: nat, ip: nat, lim: nat)
    requires op <= lim <= dst.Length && ip <= |src|
    ensures var t := dst[..op] + src[ip..] + seq(lim, i => 0 as byte);
            Agree(dst, t, op) && lim <= |t|
            && forall k :: op <= k < lim && ip + (k - op) < |src| ==> t[k] == src[ip + (k - op)]
  {
  }

  method CopyLiterals16(src: seq<byte>, dst: array<byte>, ip: nat, op: nat, length: nat, ghost lim: nat)
    requires ip + 16 <= |src| && op + 16 <= lim <= dst.Length && length <= 16
    modifies dst
    ensures dst[..op + length] == old(dst[..op]) + src[ip..ip + length] && UntouchedFrom(dst, lim)
  {
    LiteralGoal(dst, src, op, ip, lim);
    MemcpyFrom(dst, op, src, ip, 16, dst[..op] + src[ip..] + seq(lim, i => 0 as byte), lim);
  }

  method CopyLiterals32(src: seq<byte>, dst: array<byte>, ip: nat, op: nat, length: nat, ghost lim: nat)
    requires ip + length + 32 <= |src| && op + length + 32 <= lim <= dst.Length
    modifies dst
    ensures dst[..op + length] == old(dst[..op]) + src[ip..ip + length] && UntouchedFrom(dst, lim)
  {
    LiteralGoal(dst, src, op, ip, lim);
    WildCopy32From(dst, op, src, ip, op + length, dst[..op] + src[ip..] + seq(lim, i => 0 as byte), lim);
  }

  method CopyLiterals8(src: seq<byte>, dst: array<byte>, ip: nat, op: nat, length: nat, ghost lim: nat)
    requires ip + length + 8 <= |src| && op + 8 <= lim && op + length + 7 <= lim <= dst.Length
    modifies dst
    ensures dst[..op + length] == old(dst[..op]) + src[ip..ip + length] && UntouchedFrom(dst, lim)
  {
    LiteralGoal(dst, src, op, ip, lim);
    WildCopy8From(dst, op, src, ip, op + length, dst[..op] + src[ip..] + seq(lim, i => 0 as byte), lim);
  }
}
