/** LZ4_decompress_generic for full blocks (lz/lz4.c:1948-2367), with its fast loop, its
    two-stage shortcut and its overshooting copies, over one output buffer `dst` that
    also holds the prefix. The gotos of the original are the stages below. */
module Lz4Decoder {
  import opened Bytes
  import opened Lz4Format
  import opened Lz4Memory
  import opened Lz4Overlap
  import opened Lz4Spec

  const FASTLOOP_SAFE_DISTANCE: nat := 64
  const WILDCOPYLENGTH: nat := 8
  const MATCH_SAFEGUARD_DISTANCE: nat := 12

  /** Where the decoder stands: at a token, at the label safe_literal_copy, at an offset,
      at the label _copy_match, at the label safe_match_copy, or at an end. */
  datatype Stage =
    | AtToken
    | AtLiterals(nibble: nat, length: nat)
    | AtOffset(nibble: nat, roomy: bool)
    | AtCopyMatch(nibble: nat, offset: nat)
    | AtMatch(offset: nat, length: nat)
    | Complete
    | Failed
  {
    function Rank(): nat {
      match this
      case AtLiterals(_, _) => 4
      case AtOffset(_, _) => 3
      case AtCopyMatch(_, _) => 2
      case AtMatch(_, _) => 1
      case _ => 0
    }
  }

  ghost predicate InRange(src: seq<byte>, stage: Stage, ip: nat, op: nat, oend: nat) {
    && ip <= |src| && op <= oend
    && (stage.AtToken? ==> ip < |src|)
    && (stage.AtOffset? ==> ip + 2 < |src|)
    && (stage.AtCopyMatch? ==> ip < |src| && stage.offset <= DISTANCE_MAX && op + MFLIMIT <= oend)
    && (stage.AtMatch? ==> ip < |src| && stage.offset <= DISTANCE_MAX && MINMATCH <= stage.length && op + MFLIMIT <= oend)
  }

  /** What decoding from here yields, by the specification. */
  ghost function Remaining(src: seq<byte>, stage: Stage, ip: nat, mem: seq<byte>, low: nat, oend: nat): Outcome
    requires InRange(src, stage, ip, |mem|, oend)
  {
    match stage
    case AtToken => FromToken(src, ip, mem, low, oend)
    case AtLiterals(nibble, n) => FromLiterals(src, nibble, n, ip, mem, low, oend)
    case AtOffset(nibble, roomy) => FromOffset(src, nibble, roomy, ip, mem, low, oend)
    case AtCopyMatch(nibble, offset) =>
      (match MatchLength(src, ip, nibble)
       case Overrun(at) => Malformed(at)
       case Length(n, ip') => FromMatch(src, offset, n, false, ip', mem, low, oend))
    case AtMatch(offset, n) => FromMatch(src, offset, n, false, ip, mem, low, oend)
    case Complete => Decoded(mem)
    case Failed => Malformed(ip)
  }

  /** read_variable_length (lz/lz4.c:1915-1941) with 64-bit lengths. */
  method ReadVariableLength(src: seq<byte>, ip0: nat, ilimit: int, initialCheck: bool, ghost acc: nat)
    returns (ok: bool, length: nat, ip: nat)
    requires ilimit < |src| && (ip0 < |src| || (initialCheck && ip0 <= |src|))
    ensures initialCheck && ip0 >= ilimit ==> !ok && ip == ip0
    ensures !(initialCheck && ip0 >= ilimit) ==>
              ip0 < |src| &&
              ReadVarlen(src, ip0, ilimit, acc) == if ok then Length(acc + length, ip) else Overrun(ip)
  {
    ip, length := ip0, 0;
    if initialCheck && ip >= ilimit { return false, 0, ip; }
    while true
      invariant ip0 <= ip < |src|
      invariant ReadVarlen(src, ip, ilimit, acc + length) == ReadVarlen(src, ip0, ilimit, acc)
      decreases |src| - ip
    {
      var s := src[ip];
      ip := ip + 1;
      length := length + s;
      if ip > ilimit { return false, length, ip; }
      if s != 255 { return true, length, ip; }
    }
  }

  // ---------------------------------------------------------------- matches

  lemma CopyGoalPrefix(mem: seq<byte>, offset: nat, lim: nat, t: seq<byte>)
    requires offset <= |mem| <= lim && t == CopyMatch(mem, offset, lim - |mem|)
    ensures t[..|mem|] == mem
  {
    CopyMatchPrefix(mem, offset, 0, lim - |mem|);
  }

  /** Both shortcuts copy 18 bytes whatever the length (lz/lz4.c:2070-2074, 2173-2175). */
  method CopyMatch18(dst: array<byte>, op: nat, offset: nat, length: nat, ghost lim: nat)
    requires 8 <= offset <= op && length <= 18 && op + 18 <= lim <= dst.Length
    modifies dst
    ensures dst[..op + length] == CopyMatch(old(dst[..op]), offset, length)
    ensures dst[..op] == old(dst[..op]) && UntouchedFrom(dst, lim)
  {
    hide CopyMatch;
    ghost var mem := dst[..op];
    ghost var t := CopyMatch(mem, offset, lim - op);
    CopyGoalInit(dst, op, offset, lim);
    CopyGoalPrefix(mem, offset, lim, t);
    CopyRepeats(mem, offset, lim - op);
    var match_ := op - offset;
    Memcpy(dst, op, match_, 8, t, lim);
    Memcpy(dst, op + 8, match_ + 8, 8, t, lim);
    Memcpy(dst, op + 16, match_ + 16, 2, t, lim);
    CopyGoalDone(dst, mem, offset, lim, t, length);
  }

  /** The fast loop's copy within the block (lz/lz4.c:2113-2121). */
  method CopyMatchFast(dst: array<byte>, op: nat, offset: nat, length: nat, ghost lim: nat)
    requires offset <= op && MINMATCH <= length && op + length + 32 <= lim <= dst.Length
    modifies dst
    ensures dst[..op + length] == CopyMatch(old(dst[..op]), offset, length)
    ensures dst[..op] == old(dst[..op]) && UntouchedFrom(dst, lim)
  {
    hide CopyMatch;
    ghost var mem := dst[..op];
    ghost var t := CopyMatch(mem, offset, lim - op);
    CopyGoalInit(dst, op, offset, lim);
    CopyGoalPrefix(mem, offset, lim, t);
    if offset < 16 {
      MemcpyUsingOffset(dst, op, offset, op + length, mem, t, lim);
    } else {
      CopyRepeats(mem, offset, lim - op);
      WildCopy32(dst, op, op - offset, op + length, t, lim);
    }
    CopyGoalDone(dst, mem, offset, lim, t, length);
  }

  /** Byte-wise copy of what is left of a match near the end of the buffer. */
  method CopyTail(dst: array<byte>, op0: nat, s0: nat, cpy: nat, ghost t: seq<byte>, ghost lim: nat)
    requires s0 < op0 && cpy <= lim <= dst.Length && Agree(dst, t, op0)
    requires op0 <= lim && Repeats(t, op0, lim, op0 - s0)
    modifies dst
    ensures Agree(dst, t, cpy) && UntouchedFrom(dst, lim)
  {
    var op, s := op0, s0;
    while op < cpy
      invariant op0 <= op <= lim && op - s == op0 - s0
      invariant Agree(dst, t, op) && UntouchedFrom(dst, lim)
    {
      assert t[op] == t[op - (op0 - s0)];
      dst[op] := dst[s];
      op, s := op + 1, s + 1;
    }
  }

  /** The safe loop's copy within the block, including its end-of-block test
      (lz/lz4.c:2328-2356). */
  method CopyMatchSafe(dst: array<byte>, op0: nat, offset: nat, length: nat, oend: nat) returns (ok: bool)
    requires offset <= op0 && MINMATCH <= length && op0 + MFLIMIT <= oend <= dst.Length
    modifies dst
    ensures ok == (op0 + length <= oend - LASTLITERALS)
    ensures ok ==> dst[..op0 + length] == CopyMatch(old(dst[..op0]), offset, length)
    ensures dst[..op0] == old(dst[..op0]) && UntouchedFrom(dst, oend)
  {
    hide CopyMatch;
    ghost var mem := dst[..op0];
    ghost var t := CopyMatch(mem, offset, oend - op0);
    CopyGoalInit(dst, op0, offset, oend);
    CopyGoalPrefix(mem, offset, oend, t);
    var cpy := op0 + length;
    var match_ := CopyFirst8(dst, op0, offset, mem, t, oend);
    var op := op0 + 8;
    if cpy > oend - MATCH_SAFEGUARD_DISTANCE {
      var oCopyLimit := oend - (WILDCOPYLENGTH - 1);
      if cpy > oend - LASTLITERALS { return false; }
      if op < oCopyLimit {
        WildCopy8(dst, op, match_, oCopyLimit, t, oend);
        match_ := match_ + (oCopyLimit - op);
        op := oCopyLimit;
      }
      CopyTail(dst, op, match_, cpy, t, oend);
    } else {
      Memcpy(dst, op, match_, 8, t, oend);
      if length > 16 { WildCopy8(dst, op + 8, match_ + 8, cpy, t, oend); }
    }
    CopyGoalDone(dst, mem, offset, oend, t, length);
    ok := true;
  }

  // ---------------------------------------------------------------- the fast loop

  /** A token and its literals in the fast loop (lz/lz4.c:2003-2036). */
  method FastLiterals(src: seq<byte>, dst: array<byte>, ip0: nat, op0: nat, oend: nat, ghost low: nat)
    returns (next: Stage, ip: nat, op: nat)
    requires ip0 < |src| && op0 + FASTLOOP_SAFE_DISTANCE <= oend <= dst.Length
    modifies dst
    ensures next.AtOffset? || next.AtLiterals? || next.Failed?
    ensures ip0 < ip && op0 <= op && InRange(src, next, ip, op, oend)
    ensures next.AtOffset? ==> op + 32 <= oend && next.nibble <= ML_MASK && (next.roomy ==> op + 50 <= oend)
    ensures Remaining(src, next, ip, dst[..op], low, oend) == FromToken(src, ip0, old(dst[..op0]), low, oend)
    ensures dst[..op0] == old(dst[..op0]) && UntouchedFrom(dst, oend)
  {
    hide FromOffset, FromMatch;
    var token := src[ip0];
    ip, op := ip0 + 1, op0;
    var length: nat := token / 16;
    if length == RUN_MASK {
      var ok, addl, ip' := ReadVariableLength(src, ip, |src| - RUN_MASK, true, length);
      ip := ip';
      if !ok { return Failed, ip, op; }
      length := length + addl;
      if op + length > oend - 32 || ip + length > |src| - 32 {
        return AtLiterals(token % 16, length), ip, op;
      }
      CopyLiterals32(src, dst, ip, op, length, oend);
      ip, op := ip + length, op + length;
      next := AtOffset(token % 16, false);
    } else {
      if ip > |src| - (16 + 1) { return AtLiterals(token % 16, length), ip, op; }
      CopyLiterals16(src, dst, ip, op, length, oend);
      ip, op := ip + length, op + length;
      next := AtOffset(token % 16, true);
    }
  }

  /** How low a match may reach. A 64 KB prefix needs no test: no offset exceeds it. */
  ghost predicate PrefixOk(lowPrefix: int, prefix64: bool, low: nat, op: nat) {
    && low == (if lowPrefix < 0 then 0 else lowPrefix)
    && (if prefix64 then lowPrefix >= -1 && lowPrefix + 65536 <= op else 0 <= lowPrefix <= op)
  }

  /** An offset and its match in the fast loop (lz/lz4.c:2038-2122). */
  method FastMatch(src: seq<byte>, dst: array<byte>, nibble: nat, roomy: bool, ip0: nat, op0: nat, oend: nat,
                   lowPrefix: int, prefix64: bool, ghost low: nat)
    returns (next: Stage, ip: nat, op: nat)
    requires ip0 + 2 < |src| && op0 + 32 <= oend <= dst.Length && nibble <= ML_MASK
    requires PrefixOk(lowPrefix, prefix64, low, op0) && (roomy ==> op0 + 50 <= oend)
    modifies dst
    ensures next.AtToken? || next.AtMatch? || next.Failed?
    ensures ip0 < ip && op0 <= op && InRange(src, next, ip, op, oend)
    ensures next.AtToken? ==> op + FASTLOOP_SAFE_DISTANCE <= oend
    ensures Remaining(src, next, ip, dst[..op], low, oend)
         == FromOffset(src, nibble, roomy, ip0, old(dst[..op0]), low, oend)
    ensures dst[..op0] == old(dst[..op0]) && UntouchedFrom(dst, oend)
  {
    hide CopyMatch, FromToken, FromLiterals;
    ip, op := ip0 + 2, op0;
    var offset: nat := ReadLE16(src, ip0);
    var match_ := op - offset;
    var length: nat := nibble;
    if length == ML_MASK {
      var ok, addl, ip' := ReadVariableLength(src, ip, |src| - LASTLITERALS + 1, false, length + MINMATCH);
      ip := ip';
      if !ok { return Failed, ip, op; }
      length := length + addl;
      length := length + MINMATCH;
      if match_ < lowPrefix { return Failed, ip, op; }
      if op + length >= oend - FASTLOOP_SAFE_DISTANCE { return AtMatch(offset, length), ip, op; }
    } else {
      length := length + MINMATCH;
      if op + length >= oend - FASTLOOP_SAFE_DISTANCE { return AtMatch(offset, length), ip, op; }
      if prefix64 || match_ >= lowPrefix {
        if offset >= 8 {
          CopyMatch18(dst, op, offset, length, oend);
          op := op + length;
          return AtToken, ip, op;
        }
      }
    }
    if match_ < lowPrefix { return Failed, ip, op; }
    CopyMatchFast(dst, op, offset, length, oend);
    op := op + length;
    next := AtToken;
  }

  /** The fast loop, for as long as 64 bytes of output remain (lz/lz4.c:2002-2123). */
  method FastLoop(src: seq<byte>, dst: array<byte>, ip0: nat, op0: nat, oend: nat,
                  lowPrefix: int, prefix64: bool, ghost low: nat)
    returns (next: Stage, ip: nat, op: nat)
    requires ip0 < |src| && op0 + FASTLOOP_SAFE_DISTANCE <= oend <= dst.Length
    requires PrefixOk(lowPrefix, prefix64, low, op0)
    modifies dst
    ensures next.AtLiterals? || next.AtMatch? || next.Failed?
    ensures ip0 < ip && op0 <= op && InRange(src, next, ip, op, oend)
    ensures Remaining(src, next, ip, dst[..op], low, oend) == FromToken(src, ip0, old(dst[..op0]), low, oend)
    ensures dst[..op0] == old(dst[..op0]) && UntouchedFrom(dst, oend)
  {
    hide FromToken, FromLiterals, FromOffset, FromMatch;
    ip, op := ip0, op0;
    while true
      invariant ip0 <= ip < |src| && op0 <= op && op + FASTLOOP_SAFE_DISTANCE <= oend
      invariant FromToken(src, ip, dst[..op], low, oend) == FromToken(src, ip0, old(dst[..op0]), low, oend)
      invariant dst[..op0] == old(dst[..op0]) && UntouchedFrom(dst, oend)
      decreases |src| - ip
    {
      var opStart := op;
      ghost var before := dst[..op];
      next, ip, op := FastLiterals(src, dst, ip, op, oend, low);
      assert dst[..op0] == dst[..opStart][..op0] == before[..op0];
      if !next.AtOffset? { return; }
      var opMatch := op;
      ghost var middle := dst[..op];
      next, ip, op := FastMatch(src, dst, next.nibble, next.roomy, ip, op, oend, lowPrefix, prefix64, low);
      assert dst[..op0] == dst[..opMatch][..op0] == middle[..op0];
      if !next.AtToken? { return; }
    }
  }

  // ---------------------------------------------------------------- the safe loop

  /** A token in the safe loop, with the two-stage shortcut (lz/lz4.c:2132-2193). */
  method SafeToken(src: seq<byte>, dst: array<byte>, ip0: nat, op0: nat, oend: nat,
                   lowPrefix: int, prefix64: bool, ghost low: nat)
    returns (next: Stage, ip: nat, op: nat)
    requires ip0 < |src| && op0 <= oend <= dst.Length && PrefixOk(lowPrefix, prefix64, low, op0)
    modifies dst
    ensures next.AtToken? || next.AtCopyMatch? || next.AtLiterals? || next.Failed?
    ensures ip0 < ip && op0 <= op && InRange(src, next, ip, op, oend)
    ensures Remaining(src, next, ip, dst[..op], low, oend) == FromToken(src, ip0, old(dst[..op0]), low, oend)
    ensures dst[..op0] == old(dst[..op0]) && UntouchedFrom(dst, oend)
  {
    hide CopyMatch, FromLiterals;
    var shortiend: int, shortoend: int := |src| - 14 - 2, oend - 14 - 18;
    var token := src[ip0];
    ip, op := ip0 + 1, op0;
    var length: nat := token / 16;
    if length != RUN_MASK && ip < shortiend && op <= shortoend {
      CopyLiterals16(src, dst, ip, op, length, oend);
      op, ip := op + length, ip + length;
      ghost var middle, opMiddle := dst[..op], op;
      assert FromToken(src, ip0, old(dst[..op0]), low, oend)
          == FromOffset(src, token % 16, true, ip, middle, low, oend);
      assert dst[..op0] == middle[..op0] == old(dst[..op0]);
      next, ip, op := ShortMatch(src, dst, token % 16, ip, op, oend, lowPrefix, prefix64, low);
      assert dst[..op0] == dst[..opMiddle][..op0];
    } else if length == RUN_MASK {
      var ok, addl, ip' := ReadVariableLength(src, ip, |src| - RUN_MASK, true, length);
      ip := ip';
      next := if ok then AtLiterals(token % 16, length + addl) else Failed;
    } else {
      next := AtLiterals(token % 16, length);
    }
  }

  /** The second stage of the shortcut. When it does not apply, what it has read is kept. */
  method ShortMatch(src: seq<byte>, dst: array<byte>, nibble: nat, ip0: nat, op0: nat, oend: nat,
                    lowPrefix: int, prefix64: bool, ghost low: nat)
    returns (next: Stage, ip: nat, op: nat)
    requires ip0 + 2 < |src| && op0 + 18 <= oend <= dst.Length && nibble <= ML_MASK
    requires PrefixOk(lowPrefix, prefix64, low, op0)
    modifies dst
    ensures next.AtToken? || next.AtCopyMatch?
    ensures ip == ip0 + 2 && op0 <= op && InRange(src, next, ip, op, oend)
    ensures Remaining(src, next, ip, dst[..op], low, oend)
         == FromOffset(src, nibble, true, ip0, old(dst[..op0]), low, oend)
    ensures dst[..op0] == old(dst[..op0]) && UntouchedFrom(dst, oend)
  {
    hide CopyMatch, FromToken, FromLiterals;
    ip, op := ip0 + 2, op0;
    var offset: nat := ReadLE16(src, ip0);
    var match_ := op - offset;
    if nibble != ML_MASK && offset >= 8 && (prefix64 || match_ >= lowPrefix) {
      CopyMatch18(dst, op, offset, nibble + MINMATCH, oend);
      op := op + nibble + MINMATCH;
      next := AtToken;
    } else {
      next := AtCopyMatch(nibble, offset);
    }
  }

  /** The label safe_literal_copy (lz/lz4.c:2196-2267): the last run, or eight-byte strides
      and the offset that follows. */
  method SafeLiterals(src: seq<byte>, dst: array<byte>, nibble: nat, length: nat, ip0: nat, op0: nat, oend: nat, ghost low: nat)
    returns (next: Stage, ip: nat, op: nat)
    requires ip0 <= |src| && op0 <= oend <= dst.Length
    modifies dst
    ensures next.Complete? || next.Failed? || next.AtCopyMatch?
    ensures ip0 <= ip && op0 <= op && InRange(src, next, ip, op, oend)
    ensures Remaining(src, next, ip, dst[..op], low, oend)
         == FromLiterals(src, nibble, length, ip0, old(dst[..op0]), low, oend)
    ensures dst[..op0] == old(dst[..op0]) && UntouchedFrom(dst, oend)
  {
    hide FromMatch, FromToken;
    ip, op := ip0, op0;
    var cpy := op + length;
    if cpy > oend - MFLIMIT || ip + length > |src| - (2 + 1 + LASTLITERALS) {
      if ip + length != |src| || cpy > oend { return Failed, ip, op; }
      forall i | 0 <= i < length { dst[op + i] := src[ip + i]; }
      assert dst[..op + length] == old(dst[..op0]) + src[ip..];
      ip, op := ip + length, op + length;
      next := Complete;
    } else {
      CopyLiterals8(src, dst, ip, op, length, oend);
      ip, op := ip + length, cpy;
      var offset := ReadLE16(src, ip);
      ip := ip + 2;
      next := AtCopyMatch(nibble, offset);
    }
  }

  /** The label _copy_match (lz/lz4.c:2269-2276). */
  method SafeMatchLength(src: seq<byte>, nibble: nat, offset: nat, ip0: nat, ghost op: nat, ghost oend: nat)
    returns (next: Stage, ip: nat)
    requires InRange(src, AtCopyMatch(nibble, offset), ip0, op, oend)
    ensures next.AtMatch? || next.Failed?
    ensures ip0 <= ip && InRange(src, next, ip, op, oend)
    ensures forall mem, low :: |mem| == op ==>
              Remaining(src, next, ip, mem, low, oend) == Remaining(src, AtCopyMatch(nibble, offset), ip0, mem, low, oend)
  {
    hide FromMatch;
    var length: nat := nibble;
    ip := ip0;
    if length == ML_MASK {
      var ok, addl, ip' := ReadVariableLength(src, ip, |src| - LASTLITERALS + 1, false, length + MINMATCH);
      ip := ip';
      if !ok { return Failed, ip; }
      length := length + addl;
    }
    length := length + MINMATCH;
    next := AtMatch(offset, length);
  }

  /** The label safe_match_copy (lz/lz4.c:2281-2357). */
  method SafeMatch(src: seq<byte>, dst: array<byte>, offset: nat, length: nat, ip: nat, op0: nat, oend: nat,
                   lowPrefix: int, ghost prefix64: bool, ghost low: nat)
    returns (next: Stage, op: nat)
    requires InRange(src, AtMatch(offset, length), ip, op0, oend) && oend <= dst.Length
    requires PrefixOk(lowPrefix, prefix64, low, op0)
    modifies dst
    ensures next.AtToken? || next.Failed?
    ensures op0 <= op && InRange(src, next, ip, op, oend)
    ensures Remaining(src, next, ip, dst[..op], low, oend)
         == FromMatch(src, offset, length, false, ip, old(dst[..op0]), low, oend)
    ensures dst[..op0] == old(dst[..op0]) && UntouchedFrom(dst, oend)
  {
    hide FromToken, CopyMatch;
    op := op0;
    var match_ := op - offset;
    if match_ < lowPrefix { return Failed, op; }
    var ok := CopyMatchSafe(dst, op, offset, length, oend);
    if !ok { return Failed, op; }
    op := op + length;
    next := AtToken;
  }

  // ---------------------------------------------------------------- the whole decoder

  /** LZ4_decompress_generic in full-block mode, without external dictionary. The output
      starts at index `start` of the buffer; the bytes before it are the prefix. The
      result is the number of bytes written, or -1 minus the input index of the error. */
  method DecompressGeneric(src: seq<byte>, dst: array<byte>, start: nat, outputSize: int, lowPrefix: int, prefix64: bool)
    returns (result: int)
    requires outputSize >= 0 ==> start + outputSize <= dst.Length
    requires PrefixOk(lowPrefix, prefix64, Low(lowPrefix), start)
    modifies dst
    ensures outputSize < 0 ==> result == -1
    ensures outputSize >= 0 ==>
              match Decompress(src, old(dst[..start]), Low(lowPrefix), outputSize)
              case Malformed(at) => result == -1 - (at as int)
              case Decoded(mem) => 0 <= result <= outputSize && dst[..start + result] == mem
    ensures start <= dst.Length ==> dst[..start] == old(dst[..start])
    ensures forall i :: start + outputSize <= i < dst.Length && start <= i ==> dst[i] == old(dst[i])
  {
    hide FromToken, FromLiterals, FromOffset, FromMatch, CopyMatch;
    if outputSize < 0 { return -1; }
    if outputSize == 0 {
      return if |src| == 1 && src[0] == 0 then 0 else -1;
    }
    if |src| == 0 { return -1; }
    var oend := start + outputSize;
    ghost var low, mem0 := Low(lowPrefix), dst[..start];
    var stage: Stage, ip: nat, op: nat := AtToken, 0, start;
    if oend - op >= FASTLOOP_SAFE_DISTANCE {
      stage, ip, op := FastLoop(src, dst, ip, op, oend, lowPrefix, prefix64, low);
    }
    while !stage.Complete? && !stage.Failed?
      invariant start <= op && InRange(src, stage, ip, op, oend) && !stage.AtOffset?
      invariant Remaining(src, stage, ip, dst[..op], low, oend) == FromToken(src, 0, mem0, low, oend)
      invariant dst[..start] == mem0 && UntouchedFrom(dst, oend)
      decreases |src| - ip, stage.Rank()
    {
      stage, ip, op := SafeStep(src, dst, start, stage, ip, op, oend, lowPrefix, prefix64, low);
    }
    result := if stage.Complete? then op - start else -1 - (ip as int);
  }

  function Low(lowPrefix: int): (r: nat) { if lowPrefix < 0 then 0 else lowPrefix }

  /** One stage of the safe loop. */
  method SafeStep(src: seq<byte>, dst: array<byte>, ghost start: nat, stage: Stage, ip0: nat, op0: nat, oend: nat,
                  lowPrefix: int, prefix64: bool, ghost low: nat)
    returns (next: Stage, ip: nat, op: nat)
    requires start <= op0 && InRange(src, stage, ip0, op0, oend) && oend <= dst.Length
    requires !stage.AtOffset? && !stage.Complete? && !stage.Failed?
    requires PrefixOk(lowPrefix, prefix64, low, start)
    modifies dst
    ensures op0 <= op && InRange(src, next, ip, op, oend) && !next.AtOffset?
    ensures ip0 < ip || (ip0 == ip && next.Rank() < stage.Rank())
    ensures Remaining(src, next, ip, dst[..op], low, oend) == Remaining(src, stage, ip0, old(dst[..op0]), low, oend)
    ensures dst[..start] == old(dst[..start]) && UntouchedFrom(dst, oend)
  {
    hide FromToken, FromLiterals, FromOffset, FromMatch, CopyMatch;
    ghost var before := dst[..op0];
    match stage {
      case AtToken => next, ip, op := SafeToken(src, dst, ip0, op0, oend, lowPrefix, prefix64, low);
      case AtLiterals(nibble, n) => next, ip, op := SafeLiterals(src, dst, nibble, n, ip0, op0, oend, low);
      case AtCopyMatch(nibble, offset) =>
        next, ip := SafeMatchLength(src, nibble, offset, ip0, op0, oend);
        op := op0;
      case AtMatch(offset, n) =>
        next, op := SafeMatch(src, dst, offset, n, ip0, op0, oend, lowPrefix, prefix64, low);
        ip := ip0;
    }
    assert dst[..start] == dst[..op0][..start] == before[..start];
  }
}
