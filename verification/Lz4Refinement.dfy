/** The bounds-checked decoder against the plain one. */
module Lz4Refinement {
  import opened Bytes
  import opened Lz4Format
  import opened Lz4Spec

  /** The rules a block must keep that the shortcut of the bounds-checked decoder does
      not enforce (lz/lz4.c:2156-2181): no offset is zero, and every match ends at
      least five bytes before the end of the output. */
  predicate WellEnded(src: seq<byte>, ip: nat, op: nat, oend: nat)
    requires ip <= |src|
    decreases |src| - ip, 1
  {
    ip < |src|
    && match LengthAt(src, ip + 1, src[ip] / 16)
       case Overrun(_) => false
       case Length(n, ip') => op + n > oend - MFLIMIT || MatchWellEnded(src, src[ip] % 16, ip' + n, op + n, oend)
  }

  predicate MatchWellEnded(src: seq<byte>, nibble: nat, ip: nat, op: nat, oend: nat)
    decreases |src| - ip, 0
  {
    ip + 2 <= |src| && ReadLE16(src, ip) != 0
    && match LengthAt(src, ip + 2, nibble)
       case Overrun(_) => false
       case Length(n, ip') =>
         op + n + MINMATCH <= oend - LASTLITERALS && WellEnded(src, ip', op + n + MINMATCH, oend)
  }

  lemma {:induction false} VarlenFromPlain(src: seq<byte>, ip: nat, limit: int, acc: nat)
    requires ip <= |src| && limit < |src|
    requires PlainLength(src, ip, acc).Length? && PlainLength(src, ip, acc).ip <= limit
    ensures ip < |src| && ReadVarlen(src, ip, limit, acc) == PlainLength(src, ip, acc)
    decreases |src| - ip
  {
    if src[ip] == 255 { VarlenFromPlain(src, ip + 1, limit, acc + 255); }
  }

  lemma {:induction false} PlainFromVarlen(src: seq<byte>, ip: nat, limit: int, acc: nat)
    requires ip < |src| && limit < |src| && ReadVarlen(src, ip, limit, acc).Length?
    ensures PlainLength(src, ip, acc) == ReadVarlen(src, ip, limit, acc)
    decreases |src| - ip
  {
    if src[ip] == 255 { PlainFromVarlen(src, ip + 1, limit, acc + 255); }
  }

  lemma {:induction false} PlainLengthShift(src: seq<byte>, ip: nat, acc: nat, d: nat)
    requires ip <= |src|
    ensures PlainLength(src, ip, acc + d)
      == match PlainLength(src, ip, acc) { case Length(n, at) => Length(n + d, at) case Overrun(at) => Overrun(at) }
    decreases |src| - ip
  {
    if ip < |src| && src[ip] == 255 { PlainLengthShift(src, ip + 1, acc + 255, d); }
  }

  /** Where the plain decoder still owes five bytes, six input bytes remain. */
  lemma {:induction false} PlainNeedsInput(src: seq<byte>, ip: nat, mem: seq<byte>, low: nat, oend: nat)
    requires ip <= |src| && |mem| + LASTLITERALS <= oend && Plain(src, ip, mem, low, oend).Finished?
    ensures ip + 6 <= |src|
    ensures Plain(src, ip, mem, low, oend).read >= ip + 6
    decreases |src| - ip
  {
    hide CopyMatch, PlainLength;
    var Length(n, ip') := LengthAt(src, ip + 1, src[ip] / 16);
    if oend - |mem| - n >= MFLIMIT {
      var mem' := mem + src[ip'..ip' + n];
      var Length(m, ip'') := LengthAt(src, ip' + n + 2, src[ip] % 16);
      PlainNeedsInput(src, ip'', CopyMatch(mem', ReadLE16(src, ip' + n), m + MINMATCH), low, oend);
    }
  }

  lemma LiteralLengthsAgree(src: seq<byte>, ip: nat, nibble: nat)
    requires ip <= |src|
    ensures var p := LengthAt(src, ip, nibble);
            p.Length? && p.ip + p.n <= |src| ==> LiteralLength(src, ip, nibble) == p
    ensures LiteralLength(src, ip, nibble).Length? ==> LiteralLength(src, ip, nibble) == LengthAt(src, ip, nibble)
  {
    if nibble == 15 {
      var p := PlainLength(src, ip, 15);
      if p.Length? && p.ip + p.n <= |src| { VarlenFromPlain(src, ip, |src| - RUN_MASK, 15); }
      if ip < |src| - RUN_MASK && ReadVarlen(src, ip, |src| - RUN_MASK, 15).Length? {
        PlainFromVarlen(src, ip, |src| - RUN_MASK, 15);
      }
    }
  }

  lemma MatchLengthsAgree(src: seq<byte>, ip: nat, nibble: nat)
    requires ip < |src|
    ensures var p := LengthAt(src, ip, nibble);
            p.Length? && p.ip + 4 <= |src| ==> MatchLength(src, ip, nibble) == Length(p.n + MINMATCH, p.ip)
    ensures var q := MatchLength(src, ip, nibble);
            q.Length? ==> q.n >= MINMATCH && LengthAt(src, ip, nibble) == Length(q.n - MINMATCH, q.ip)
  {
    if nibble == 15 {
      PlainLengthShift(src, ip, 15, MINMATCH);
      var p := PlainLength(src, ip, 15);
      var limit := |src| - LASTLITERALS + 1;
      if p.Length? && p.ip + 4 <= |src| { VarlenFromPlain(src, ip, limit, 15 + MINMATCH); }
      if ReadVarlen(src, ip, limit, 15 + MINMATCH).Length? { PlainFromVarlen(src, ip, limit, 15 + MINMATCH); }
    }
  }

  /** One sequence of the bounds-checked decoder whose lengths are read as the plain
      decoder reads them. */
  lemma CheckedLast(src: seq<byte>, ip: nat, n: nat, ip': nat, mem: seq<byte>, low: nat, oend: nat)
    requires ip < |src| && LengthAt(src, ip + 1, src[ip] / 16) == Length(n, ip')
    requires ip' + n == |src| && |mem| + n <= oend && oend - |mem| - n < MFLIMIT
    ensures FromToken(src, ip, mem, low, oend) == Decoded(mem + src[ip'..ip' + n])
  {
    hide FromOffset, FromMatch;
    LiteralLengthsAgree(src, ip + 1, src[ip] / 16);
    assert src[ip'..ip' + n] == src[ip'..];
  }

  lemma CheckedMatch(src: seq<byte>, ip: nat, n: nat, ip': nat, m: nat, ip'': nat, mem: seq<byte>, low: nat, oend: nat)
    requires ip < |src| && LengthAt(src, ip + 1, src[ip] / 16) == Length(n, ip')
    requires ip' + n + 2 <= |src| && |mem| + n <= oend - MFLIMIT
    requires LengthAt(src, ip' + n + 2, src[ip] % 16) == Length(m, ip'') && ip'' + 6 <= |src|
    requires ReadLE16(src, ip' + n) + low <= |mem| + n && |mem| + n + m + MINMATCH <= oend - LASTLITERALS
    ensures FromToken(src, ip, mem, low, oend)
      == FromToken(src, ip'', CopyMatch(mem + src[ip'..ip' + n], ReadLE16(src, ip' + n), m + MINMATCH), low, oend)
  {
    hide CopyMatch, LiteralLength, MatchLength, PlainLength, LengthAt, FromToken, FromOffset, ReadLE16;
    LiteralLengthsAgree(src, ip + 1, src[ip] / 16);
    MatchLengthsAgree(src, ip' + n + 2, src[ip] % 16);
    TokenToOffset(src, ip, n, ip', mem, low, oend);
    OffsetToToken(src, src[ip] % 16, Roomy(src, ip + 1, src[ip] / 16, |mem|, oend), ip' + n, m, ip'', mem + src[ip'..ip' + n], low, oend);
  }

  /** What the plain decoder accepts from a token on, the bounds-checked one accepts, with
      the same bytes. */
  lemma {:induction false} AcceptedFromToken(src: seq<byte>, ip: nat, mem: seq<byte>, low: nat, oend: nat)
    requires ip <= |src| && |mem| <= oend
    requires Plain(src, ip, mem, low, oend).Finished? && Plain(src, ip, mem, low, oend).read == |src|
    ensures ip < |src| && FromToken(src, ip, mem, low, oend) == Decoded(Plain(src, ip, mem, low, oend).mem)
    ensures |Plain(src, ip, mem, low, oend).mem| == oend && WellEnded(src, ip, |mem|, oend)
    decreases |src| - ip
  {
    hide CopyMatch, FromToken, LengthAt;
    var Length(n, ip') := LengthAt(src, ip + 1, src[ip] / 16);
    if oend == |mem| + n {
      CheckedLast(src, ip, n, ip', mem, low, oend);
    } else {
      var mem' := mem + src[ip'..ip' + n];
      var p := ip' + n;
      var Length(m, ip'') := LengthAt(src, p + 2, src[ip] % 16);
      var mem'' := CopyMatch(mem', ReadLE16(src, p), m + MINMATCH);
      PlainNeedsInput(src, ip'', mem'', low, oend);
      AcceptedFromToken(src, ip'', mem'', low, oend);
      CheckedMatch(src, ip, n, ip', m, ip'', mem, low, oend);
    }
  }

  lemma TokenCases(src: seq<byte>, ip: nat, mem: seq<byte>, low: nat, oend: nat)
    requires ip < |src| && FromToken(src, ip, mem, low, oend).Decoded?
    ensures LiteralLength(src, ip + 1, src[ip] / 16).Length?
    ensures var p := LiteralLength(src, ip + 1, src[ip] / 16);
            || (p.ip + p.n == |src| && FromToken(src, ip, mem, low, oend) == Decoded(mem + src[p.ip..]))
            || (&& p.ip + p.n + 2 < |src| && |mem| + p.n <= oend - MFLIMIT
                && FromToken(src, ip, mem, low, oend)
                   == FromOffset(src, src[ip] % 16, Roomy(src, ip + 1, src[ip] / 16, |mem|, oend), p.ip + p.n,
                                 mem + src[p.ip..p.ip + p.n], low, oend))
  {
    hide FromOffset, CopyMatch;
  }

  lemma OffsetCases(src: seq<byte>, nibble: nat, roomy: bool, p: nat, mem: seq<byte>, low: nat, oend: nat)
    requires p + 2 < |src| && FromOffset(src, nibble, roomy, p, mem, low, oend).Decoded?
    ensures MatchLength(src, p + 2, nibble).Length? && ReadLE16(src, p) + low <= |mem|
    ensures var q := MatchLength(src, p + 2, nibble);
            FromOffset(src, nibble, roomy, p, mem, low, oend) == FromToken(src, q.ip, CopyMatch(mem, ReadLE16(src, p), q.n), low, oend)
  {
    hide FromToken, CopyMatch, MatchLength, ReadLE16;
  }

  /** What one accepted sequence of the bounds-checked decoder looks like. */
  lemma CheckedCases(src: seq<byte>, ip: nat, mem: seq<byte>, low: nat, oend: nat)
    requires ip < |src| && FromToken(src, ip, mem, low, oend).Decoded?
    ensures LengthAt(src, ip + 1, src[ip] / 16).Length?
    ensures var p := LengthAt(src, ip + 1, src[ip] / 16);
            var p' := p.ip + p.n;
            || (p' == |src| && FromToken(src, ip, mem, low, oend) == Decoded(mem + src[p.ip..p']))
            || (&& p' + 2 < |src| && |mem| + p.n <= oend - MFLIMIT
                && LengthAt(src, p' + 2, src[ip] % 16).Length?
                && var q := LengthAt(src, p' + 2, src[ip] % 16);
                && q.ip < |src| && ReadLE16(src, p') + low <= |mem| + p.n
                && FromToken(src, ip, mem, low, oend)
                   == FromToken(src, q.ip, CopyMatch(mem + src[p.ip..p'], ReadLE16(src, p'), q.n + MINMATCH), low, oend))
  {
    hide CopyMatch, LiteralLength, MatchLength, PlainLength, LengthAt, FromToken, FromOffset, ReadLE16, Roomy;
    LiteralLengthsAgree(src, ip + 1, src[ip] / 16);
    TokenCases(src, ip, mem, low, oend);
    var p := LengthAt(src, ip + 1, src[ip] / 16);
    var p' := p.ip + p.n;
    if p' == |src| {
      assert src[p.ip..p'] == src[p.ip..];
    } else {
      MatchLengthsAgree(src, p' + 2, src[ip] % 16);
      OffsetCases(src, src[ip] % 16, Roomy(src, ip + 1, src[ip] / 16, |mem|, oend), p', mem + src[p.ip..p'], low, oend);
    }
  }

  /** The converse from a token on, on blocks that keep the end rules and fill the output. */
  lemma {:induction false} AcceptsFromToken(src: seq<byte>, ip: nat, mem: seq<byte>, low: nat, oend: nat)
    requires ip < |src| && |mem| <= oend && WellEnded(src, ip, |mem|, oend)
    requires FromToken(src, ip, mem, low, oend).Decoded? && |FromToken(src, ip, mem, low, oend).mem| == oend
    ensures Plain(src, ip, mem, low, oend) == Finished(FromToken(src, ip, mem, low, oend).mem, |src|)
    decreases |src| - ip
  {
    hide CopyMatch, FromToken, LengthAt;
    CheckedCases(src, ip, mem, low, oend);
    var Length(n, ip') := LengthAt(src, ip + 1, src[ip] / 16);
    if ip' + n != |src| {
      var mem' := mem + src[ip'..ip' + n];
      var p := ip' + n;
      var Length(m, ip'') := LengthAt(src, p + 2, src[ip] % 16);
      AcceptsFromToken(src, ip'', CopyMatch(mem', ReadLE16(src, p), m + MINMATCH), low, oend);
    }
  }

  /** Fast refines simple: a block that the plain decoder accepts for an output size is
      accepted by the bounds-checked decoder with that capacity, with the same bytes, if and
      only if there is output at all or the block is the one byte 0. */
  lemma PlainAccepted(src: seq<byte>, mem: seq<byte>, low: nat, capacity: nat, result: seq<byte>)
    requires Plain(src, 0, mem, low, |mem| + capacity) == Finished(result, |src|)
    ensures |result| == |mem| + capacity && WellEnded(src, 0, |mem|, |mem| + capacity)
    ensures Decompress(src, mem, low, capacity)
      == if capacity > 0 || src == [0] then Decoded(result) else Malformed(0)
  {
    AcceptedFromToken(src, 0, mem, low, |mem| + capacity);
    if capacity == 0 { PlainOfNothing(src, mem, low); }
  }

  /** With nothing to decode the plain decoder takes a token without literals, whatever its
      low nibble says of a match (lz/lz4.c:1827-1852); LZ4_decompress_generic takes 0 alone
      (lz/lz4.c:1979-1983). */
  lemma PlainOfNothing(src: seq<byte>, mem: seq<byte>, low: nat)
    ensures Plain(src, 0, mem, low, |mem|) == Finished(mem, |src|) <==> |src| == 1 && src[0] < 16
    ensures Plain(src, 0, mem, low, |mem|).Finished? ==> Plain(src, 0, mem, low, |mem|).mem == mem
  {
    hide CopyMatch;
    if src != [] && src[0] < 16 {
      assert LengthAt(src, 1, src[0] / 16) == Length(0, 1);
      assert mem + src[1..1] == mem;
    }
  }

  lemma EmptyOutputExample()
    ensures Plain([5], 0, [], 0, 0) == Finished([], 1) && WellEnded([5], 0, 0, 0)
    ensures Decompress([5], [], 0, 0) == Malformed(0)
  {
    PlainOfNothing([5], [], 0);
    assert LengthAt([5], 1, 0) == Length(0, 1);
  }

  /** The converse: what the bounds-checked decoder accepts, the plain one accepts if it
      fills the output and keeps the end rules. */
  lemma PlainAccepts(src: seq<byte>, mem: seq<byte>, low: nat, capacity: nat)
    requires WellEnded(src, 0, |mem|, |mem| + capacity)
    requires Decompress(src, mem, low, capacity).Decoded?
    requires |Decompress(src, mem, low, capacity).mem| == |mem| + capacity
    ensures Plain(src, 0, mem, low, |mem| + capacity) == Finished(Decompress(src, mem, low, capacity).mem, |src|)
  {
    if capacity == 0 {
      PlainOfNothing(src, mem, low);
    } else {
      AcceptsFromToken(src, 0, mem, low, |mem| + capacity);
    }
  }

  /** The blocks that both decoders accept, with the same bytes: those that the
      bounds-checked decoder accepts, that fill the output and that keep the end rules. */
  lemma PlainExactly(src: seq<byte>, mem: seq<byte>, low: nat, capacity: nat, result: seq<byte>)
    ensures && Plain(src, 0, mem, low, |mem| + capacity) == Finished(result, |src|) && (capacity > 0 || src == [0])
      <==> && Decompress(src, mem, low, capacity) == Decoded(result)
           && |result| == |mem| + capacity && WellEnded(src, 0, |mem|, |mem| + capacity)
  {
    hide Plain, WellEnded, FromToken;
    if Plain(src, 0, mem, low, |mem| + capacity) == Finished(result, |src|) {
      PlainAccepted(src, mem, low, capacity, result);
    }
    if && Decompress(src, mem, low, capacity) == Decoded(result)
       && |result| == |mem| + capacity && WellEnded(src, 0, |mem|, |mem| + capacity) {
      PlainAccepts(src, mem, low, capacity);
    }
  }

  // ---------------------------------------------------------------- bounds

  /** Whatever the input, decoded output only extends the prefix and fits the capacity. */
  lemma {:induction false} DecodedFits(src: seq<byte>, ip: nat, mem: seq<byte>, low: nat, oend: nat)
    requires ip < |src| && |mem| <= oend && FromToken(src, ip, mem, low, oend).Decoded?
    ensures mem <= FromToken(src, ip, mem, low, oend).mem && |FromToken(src, ip, mem, low, oend).mem| <= oend
    decreases |src| - ip
  {
    hide CopyMatch, LiteralLength, MatchLength;
    var nibble: nat := src[ip] / 16;
    if Roomy(src, ip + 1, nibble, |mem|, oend) {
      var mem' := mem + src[ip + 1..ip + 1 + nibble];
      OffsetFits(src, src[ip] % 16, true, ip + 1 + nibble, mem', low, oend);
      assert mem <= mem';
    } else {
      var Length(n, ip') := LiteralLength(src, ip + 1, nibble);
      if |mem| + n <= oend - MFLIMIT && ip' + n <= |src| - (2 + 1 + LASTLITERALS) {
        var mem' := mem + src[ip'..ip' + n];
        OffsetFits(src, src[ip] % 16, false, ip' + n, mem', low, oend);
        assert mem <= mem';
      }
    }
  }

  lemma {:induction false} OffsetFits(src: seq<byte>, nibble: nat, roomy: bool, ip: nat, mem: seq<byte>, low: nat, oend: nat)
    requires nibble <= 15 && ip + 2 < |src| && |mem| + MFLIMIT <= oend && (roomy ==> |mem| + 18 <= oend)
    requires FromOffset(src, nibble, roomy, ip, mem, low, oend).Decoded?
    ensures mem <= FromOffset(src, nibble, roomy, ip, mem, low, oend).mem
    ensures |FromOffset(src, nibble, roomy, ip, mem, low, oend).mem| <= oend
    decreases |src| - ip
  {
    hide CopyMatch, FromToken, ReadVarlen;
    var offset := ReadLE16(src, ip);
    var Length(n, ip') := MatchLength(src, ip + 2, nibble);
    var mem' := CopyMatch(mem, offset, n);
    CopyMatchPrefix(mem, offset, 0, n);
    assert CopyMatch(mem, offset, 0) == mem by { CopyNothing(mem, offset); }
    DecodedFits(src, ip', mem', low, oend);
  }

  lemma CopyNothing(mem: seq<byte>, offset: nat)
    requires offset <= |mem|
    ensures CopyMatch(mem, offset, 0) == mem
  {
  }

  /** The two decoders differ: this block is accepted by the shortcut although its match
      ends at the very end of the output, which the plain decoder refuses. */
  lemma ShortcutAcceptsMore(lits: seq<byte>)
    requires |lits| == 14
    ensures var src := [0xEE] + lits + [8, 0] + [0];
            && Decompress(src, [], 0, 32) == Decoded(CopyMatch(lits, 8, 18))
            && Plain(src, 0, [], 0, 32) == Refused
  {
    hide CopyMatch;
    var src: seq<byte> := [0xEE] + lits + [8, 0] + [0];
    assert [] + src[1..15] == lits;
    assert ReadLE16(src, 15) == 8;
    var mem := CopyMatch(lits, 8, 18);
    assert FromToken(src, 17, mem, 0, 32) == Decoded(mem) by { assert mem + src[18..] == mem; }
    assert FromOffset(src, 14, true, 15, lits, 0, 32) == FromToken(src, 17, mem, 0, 32);
    assert PlainMatch(src, 14, 15, lits, 0, 32) == Refused;
  }
}
