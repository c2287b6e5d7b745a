/** Copying a match whose source may overlap its destination, in strides of 8 and 32
    bytes. Every method is proved to yield the byte-at-a-time copy `CopyMatch`. */
module Lz4Overlap {
  import opened Bytes
  import opened Lz4Format
  import opened Lz4Memory

  // lz/lz4.c:456-457
  const INC32: seq<int> := [0, 1, 2, 1, 0, 4, 4, 4]
  const DEC64: seq<int> := [0, 0, 0, -1, -4, 1, 2, 3]

  /** How the result of a match copy repeats itself. */
  lemma CopyRepeats(mem: seq<byte>, offset: nat, n: nat)
    requires offset <= |mem|
    ensures offset > 0 ==> Repeats(CopyMatch(mem, offset, n), |mem|, |mem| + n, offset)
    ensures offset == 0 && |mem| + 4 <= |mem| + n ==> Repeats(CopyMatch(mem, offset, n), |mem| + 4, |mem| + n, 4)
    ensures offset == 0 && |mem| + 8 <= |mem| + n ==> Repeats(CopyMatch(mem, offset, n), |mem| + 8, |mem| + n, 8)
    ensures forall k :: |mem| <= k < |mem| + n && offset == 0 ==> CopyMatch(mem, offset, n)[k] == 0
  {
    var t := CopyMatch(mem, offset, n);
    forall k | |mem| <= k < |mem| + n
      ensures offset > 0 ==> t[k] == t[k - offset]
      ensures offset == 0 ==> t[k] == 0
    {
      CopyMatchAt(mem, offset, n, k);
    }
  }

  /** Why the tables work: after 4, then 8, bytes of a copy with a short offset, the
      adjusted source lies a multiple of the offset back, at least 4, then 8, bytes. */
  lemma ShortOffsetRepeats(mem: seq<byte>, offset: nat, n: nat)
    requires offset < 8 && offset <= |mem| && n >= 8
    ensures var t := CopyMatch(mem, offset, n);
            var p := |mem|;
            && 4 <= 4 + offset - INC32[offset] <= p + 4
            && 8 <= 8 + offset - INC32[offset] + DEC64[offset] <= p + 8
            && Repeats(t, p + 4, p + n, 4 + offset - INC32[offset])
            && Repeats(t, p + 8, p + n, 8 + offset - INC32[offset] + DEC64[offset])
  {
    hide CopyMatch;
    CopyRepeats(mem, offset, n);
    var t, p, lim := CopyMatch(mem, offset, n), |mem|, |mem| + n;
    if 1 <= offset {
      RepeatsSum(t, p, lim, offset, offset);
      if offset <= 2 { RepeatsSum(t, p + offset, lim, 2 * offset, 2 * offset); }
      if offset == 1 { RepeatsSum(t, p + 3, lim, 4, 4); }
      if offset == 2 { RepeatsSum(t, p + 2, lim, 4, 2); }
      if offset == 3 { RepeatsSum(t, p + 3, lim, 6, 3); }
    }
  }

  /** The buffer holds `mem`, and `t` is `mem` followed by the match up to index `lim`. */
  ghost predicate CopyGoal(dst: array<byte>, mem: seq<byte>, offset: nat, lim: nat, t: seq<byte>)
    reads dst
  {
    && offset <= |mem| <= lim <= dst.Length
    && t == CopyMatch(mem, offset, lim - |mem|)
    && Agree(dst, t, |mem|)
  }

  lemma CopyGoalInit(dst: array<byte>, op: nat, offset: nat, lim: nat)
    requires offset <= op <= lim <= dst.Length
    ensures CopyGoal(dst, dst[..op], offset, lim, CopyMatch(dst[..op], offset, lim - op))
  {
    forall i | 0 <= i < op ensures dst[i] == CopyMatch(dst[..op], offset, lim - op)[i] {
      CopyMatchAt(dst[..op], offset, lim - op, i);
    }
  }

  lemma CopyGoalDone(dst: array<byte>, mem: seq<byte>, offset: nat, lim: nat, t: seq<byte>, n: nat)
    requires offset <= |mem| && |mem| + n <= lim <= dst.Length
    requires t == CopyMatch(mem, offset, lim - |mem|) && Agree(dst, t, |mem| + n)
    ensures dst[..|mem| + n] == CopyMatch(mem, offset, n)
  {
    CopyMatchPrefix(mem, offset, n, lim - |mem|);
    assert dst[..|mem| + n] == t[..|mem| + n];
  }

  /** The first four bytes one at a time, overlapping as they may. */
  method CopyFirst4(dst: array<byte>, op: nat, s: nat, offset: nat,
                    ghost mem: seq<byte>, ghost t: seq<byte>, ghost lim: nat)
    requires op == |mem| && s == op - offset && op + 4 <= lim && CopyGoal(dst, mem, offset, lim, t)
    modifies dst
    ensures Agree(dst, t, op + 4) && UntouchedFrom(dst, lim)
  {
    hide CopyMatch;
    CopyRepeats(mem, offset, lim - op);
    forall i | 0 <= i < 4 { dst[op + i] := 0; }
    dst[op] := dst[s];
    dst[op + 1] := dst[s + 1];
    dst[op + 2] := dst[s + 2];
    dst[op + 3] := dst[s + 3];
    assert offset > 0 ==> t[op] == t[op - offset] && t[op + 1] == t[op + 1 - offset]
                          && t[op + 2] == t[op + 2 - offset] && t[op + 3] == t[op + 3 - offset];
  }

  /** The first eight bytes of a match (lz/lz4.c:481-494, 2328-2341). The returned source
      position is far enough back for any number of 8-byte strides. */
  method CopyFirst8(dst: array<byte>, op: nat, offset: nat,
                    ghost mem: seq<byte>, ghost t: seq<byte>, ghost lim: nat) returns (s: nat)
    requires op == |mem| && op + 8 <= lim && CopyGoal(dst, mem, offset, lim, t)
    modifies dst
    ensures s <= op && Agree(dst, t, op + 8) && Repeats(t, op + 8, lim, op + 8 - s)
    ensures UntouchedFrom(dst, lim)
  {
    hide CopyMatch;
    s := op - offset;
    if offset < 8 {
      ShortOffsetRepeats(mem, offset, lim - op);
      CopyFirst4(dst, op, s, offset, mem, t, lim);
      s := s + INC32[offset];
      Memcpy(dst, op + 4, s, 4, t, lim);
      s := s - DEC64[offset];
    } else {
      CopyRepeats(mem, offset, lim - op);
      Memcpy(dst, op, s, 8, t, lim);
      s := s + 8;
    }
  }

  /** Eight bytes of a pattern of length 1, 2 or 4 are the next eight bytes of the copy. */
  lemma PatternBytes(t: seq<byte>, op: nat, lim: nat, offset: nat, v: seq<byte>)
    requires offset in {1, 2, 4} && op + 8 <= lim && Repeats(t, op, lim, offset) && |v| == 8
    requires t[op - offset..op] == v[..offset] && v[..8 - offset] == v[offset..]
    ensures forall k :: op <= k < op + 8 ==> t[k] == v[k - op]
  {
    var w := t[op - offset..op];
    forall i | 0 <= i < offset ensures t[op - offset + i] == v[i] { assert w[i] == v[i]; }
    var w0, w1 := v[..8 - offset], v[offset..];
    forall i | offset <= i < 8 ensures v[i] == v[i - offset] { assert w1[i - offset] == w0[i - offset]; }
    var i := 0;
    while i < 8
      invariant 0 <= i <= 8
      invariant forall k :: op - offset <= k < op ==> t[k] == v[k - (op - offset)]
      invariant forall k :: op <= k < op + i ==> t[k] == v[k - op]
    {
      assert t[op + i] == t[op + i - offset];
      i := i + 1;
    }
  }

  /** Store an 8-byte pattern again and again. */
  method FillPattern(dst: array<byte>, op: nat, v: seq<byte>, cpy: nat, ghost t: seq<byte>, ghost lim: nat)
    requires |v| == 8 && After8(op, cpy) <= lim <= dst.Length
    requires Agree(dst, t, op) && Repeats(t, op + 8, lim, 8)
    requires forall k :: op <= k < op + 8 ==> t[k] == v[k - op]
    modifies dst
    ensures Agree(dst, t, After8(op, cpy)) && UntouchedFrom(dst, lim)
  {
    var d := op;
    MemcpyFrom(dst, d, v, 0, 8, t, lim);
    d := d + 8;
    while d < cpy
      invariant op + 8 <= d <= lim && After8(d - 8, cpy) == After8(op, cpy)
      invariant Agree(dst, t, d) && UntouchedFrom(dst, lim)
      invariant forall k :: d - 8 <= k < d ==> t[k] == v[k - (d - 8)]
    {
      forall k | d <= k < d + 8 ensures t[k] == v[k - d] {
        assert t[k] == t[k - 8];
      }
      MemcpyFrom(dst, d, v, 0, 8, t, lim);
      d := d + 8;
    }
  }

  /** Where LZ4_memcpy_using_offset stops writing: a pattern is stored from `op` on, any other
      match is copied in strides after its first eight bytes. */
  function WrittenTo(op: nat, offset: nat, cpy: nat): (end: nat) {
    After8(if offset in {1, 2, 4} then op else op + 8, cpy)
  }

  /** The room that the copy needs behind `cpy`: never more than twelve bytes, and more than the
      eight that lz/lz4.c:515 speaks of exactly for a match shorter than eight bytes that is
      no pattern. */
  lemma RoomBehind(op: nat, offset: nat, cpy: nat)
    requires op + MINMATCH <= cpy
    ensures cpy <= WrittenTo(op, offset, cpy) <= cpy + 12
    ensures WrittenTo(op, offset, cpy) > cpy + 8 <==> offset !in {1, 2, 4} && cpy < op + 8
  {
    var d := if offset in {1, 2, 4} then op else op + 8;
    if d + 8 < cpy { assert After8(d, cpy) <= cpy + 7; }
  }

  /** LZ4_memcpy_using_offset (lz/lz4.c:475-557), with its base case for other offsets: all
      bytes written are those of the copy, those behind `cpy` too. */
  method MemcpyUsingOffset(dst: array<byte>, op: nat, offset: nat, cpy: nat,
                           ghost mem: seq<byte>, ghost t: seq<byte>, ghost lim: nat)
    requires op == |mem| && op + MINMATCH <= cpy && WrittenTo(op, offset, cpy) <= lim && CopyGoal(dst, mem, offset, lim, t)
    modifies dst
    ensures Agree(dst, t, WrittenTo(op, offset, cpy)) && UntouchedFrom(dst, lim)
  {
    hide CopyMatch;
    var s := op - offset;
    var v: seq<byte>;
    if offset == 1 {
      var b := dst[s];
      v := [b, b, b, b, b, b, b, b];
    } else if offset == 2 {
      v := dst[s..s + 2] + dst[s..s + 2];
      v := v + v[..4];
    } else if offset == 4 {
      v := dst[s..s + 4] + dst[s..s + 4];
    } else {
      s := CopyFirst8(dst, op, offset, mem, t, lim);
      WildCopy8(dst, op + 8, s, cpy, t, lim);
      return;
    }
    assert v[..offset] == dst[s..op];
    assert t[s..op] == dst[s..op];
    CopyRepeats(mem, offset, lim - op);
    PatternBytes(t, op, lim, offset, v);
    ShortOffsetRepeats(mem, offset, lim - op);
    FillPattern(dst, op, v, cpy, t, lim);
  }
}
