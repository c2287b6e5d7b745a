/** Properties of the LZ4 decoder specifications: decoding inverts encoding, and the
    bounds-checked decoder agrees with the plain one exactly on well-ended blocks. */
module Lz4Theorems {
  import opened Bytes
  import opened Lz4Format
  import opened Lz4Spec

  // ---------------------------------------------------------------- reading back an encoding

  ghost predicate At(src: seq<byte>, ip: nat, w: seq<byte>) {
    ip + |w| <= |src| && src[ip..ip + |w|] == w
  }

  lemma AtInside(src: seq<byte>, ip: nat, w: seq<byte>)
    requires At(src, ip, w)
    ensures ip + |w| <= |src|
  {
  }

  lemma AtConcat(src: seq<byte>, ip: nat, a: seq<byte>, b: seq<byte>)
    requires At(src, ip, a + b)
    ensures At(src, ip, a) && At(src, ip + |a|, b)
  {
    var w := src[ip..ip + |a + b|];
    assert w[..|a|] == a && w[|a|..] == b;
  }

  lemma AtConcat3(src: seq<byte>, ip: nat, a: seq<byte>, b: seq<byte>, c: seq<byte>)
    requires At(src, ip, a + b + c)
    ensures At(src, ip, a) && At(src, ip + |a|, b) && At(src, ip + |a| + |b|, c)
  {
    hide At;
    AtConcat(src, ip, a + b, c);
    AtConcat(src, ip, a, b);
  }

  lemma {:induction false} ReadRun(src: seq<byte>, ip: nat, n: nat, limit: int, acc: nat)
    requires At(src, ip, Run(n)) && ip + |Run(n)| <= limit < |src|
    ensures ReadVarlen(src, ip, limit, acc) == Length(acc + n, ip + |Run(n)|)
    decreases n
  {
    if n >= 255 {
      AtConcat(src, ip, [255], Run(n - 255));
      assert src[ip] == src[ip..ip + 1][0] == 255;
      ReadRun(src, ip + 1, n - 255, limit, acc + 255);
    } else {
      assert src[ip] == src[ip..ip + 1][0] == n;
    }
  }

  /** The two length readers undo `Ext`. */
  lemma ReadLiteralLength(src: seq<byte>, ip: nat, n: nat)
    requires At(src, ip, Ext(n)) && ip + |Ext(n)| + n <= |src|
    ensures LiteralLength(src, ip, Nibble(n)) == Length(n, ip + |Ext(n)|)
  {
    if n >= 15 {
      ReadRun(src, ip, n - 15, |src| - RUN_MASK, 15);
    }
  }

  lemma ReadMatchLength(src: seq<byte>, ip: nat, n: nat)
    requires At(src, ip, Ext(n)) && ip + |Ext(n)| + 4 <= |src|
    ensures MatchLength(src, ip, Nibble(n)) == Length(n + MINMATCH, ip + |Ext(n)|)
  {
    if n >= 15 {
      ReadRun(src, ip, n - 15, |src| - LASTLITERALS + 1, 15 + MINMATCH);
    }
  }

  /** Where the parts of an encoded run, and of an encoded sequence, lie. */
  lemma SplitRun(src: seq<byte>, ip: nat, lits: seq<byte>, low: nat)
    requires low <= 15 && At(src, ip, EncodeRun(lits, low))
    ensures ip < |src| && src[ip] == Nibble(|lits|) * 16 + low
    ensures At(src, ip + 1, Ext(|lits|)) && At(src, ip + 1 + |Ext(|lits|)|, lits)
  {
    var t: seq<byte> := [Nibble(|lits|) * 16 + low];
    AtConcat3(src, ip, t, Ext(|lits|), lits);
    assert src[ip] == src[ip..ip + 1][0];
  }

  lemma SplitSequence(src: seq<byte>, ip: nat, s: Sequence)
    requires Encodable(s) && At(src, ip, Encode(s))
    ensures At(src, ip, EncodeRun(s.lits, Nibble(s.mlen - MINMATCH)))
    ensures At(src, ip + |EncodeRun(s.lits, Nibble(s.mlen - MINMATCH))|, LE16(s.offset))
    ensures At(src, ip + |EncodeRun(s.lits, Nibble(s.mlen - MINMATCH))| + 2, Ext(s.mlen - MINMATCH))
  {
    hide At, EncodeRun, LE16, Ext;
    AtConcat3(src, ip, EncodeRun(s.lits, Nibble(s.mlen - MINMATCH)), LE16(s.offset), Ext(s.mlen - MINMATCH));
  }

  lemma ReadOffset(src: seq<byte>, p: nat, offset: nat)
    requires offset <= DISTANCE_MAX && At(src, p, LE16(offset))
    ensures ReadLE16(src, p) == offset
  {
    assert src[p..p + 2][0] == LE16(offset)[0] && src[p..p + 2][1] == LE16(offset)[1];
  }

  lemma DecodeOffset(src: seq<byte>, p: nat, roomy: bool, offset: nat, mlen: nat, mem: seq<byte>, low: nat, oend: nat)
    requires 1 <= offset <= DISTANCE_MAX && MINMATCH <= mlen
    requires At(src, p, LE16(offset)) && At(src, p + 2, Ext(mlen - MINMATCH))
    requires p + 2 + |Ext(mlen - MINMATCH)| + 6 <= |src|
    requires offset + low <= |mem| && |mem| + mlen <= oend - LASTLITERALS
    ensures FromOffset(src, Nibble(mlen - MINMATCH), roomy, p, mem, low, oend)
      == FromToken(src, p + 2 + |Ext(mlen - MINMATCH)|, CopyMatch(mem, offset, mlen), low, oend)
  {
    hide FromToken, FromOffset, MatchLength, CopyMatch, LE16, ReadLE16, Ext, Run, At;
    AtInside(src, p, LE16(offset));
    ReadOffset(src, p, offset);
    ReadMatchLength(src, p + 2, mlen - MINMATCH);
    OffsetToToken(src, Nibble(mlen - MINMATCH), roomy, p, mlen - MINMATCH, p + 2 + |Ext(mlen - MINMATCH)|, mem, low, oend);
  }

  lemma RunLength(lits: seq<byte>, nibble: nat)
    requires nibble <= 15
    ensures |EncodeRun(lits, nibble)| == 1 + |Ext(|lits|)| + |lits|
  {
  }

  /** A token and its literals, followed by enough bytes, lead to the offset. */
  lemma DecodeRun(src: seq<byte>, ip: nat, lits: seq<byte>, nibble: nat, mem: seq<byte>, low: nat, oend: nat)
    requires nibble <= 15 && At(src, ip, EncodeRun(lits, nibble))
    requires ip + |EncodeRun(lits, nibble)| + 8 <= |src| && |mem| + |lits| <= oend - MFLIMIT
    ensures FromToken(src, ip, mem, low, oend)
      == FromOffset(src, nibble, Roomy(src, ip + 1, Nibble(|lits|), |mem|, oend),
                    ip + |EncodeRun(lits, nibble)|, mem + lits, low, oend)
  {
    RunLength(lits, nibble);
    SplitRun(src, ip, lits, nibble);
    ReadLiteralLength(src, ip + 1, |lits|);
    hide FromToken, FromOffset, LiteralLength, EncodeRun, Roomy, Ext, Run;
    TokenToOffset(src, ip, |lits|, ip + 1 + |Ext(|lits|)|, mem, low, oend);
  }

  /** One encoded sequence, followed by at least six more bytes, decodes to its meaning. */
  lemma DecodeSequence(src: seq<byte>, ip: nat, s: Sequence, mem: seq<byte>, low: nat, oend: nat)
    requires Encodable(s) && At(src, ip, Encode(s)) && ip + |Encode(s)| + 6 <= |src|
    requires s.offset + low <= |mem| + |s.lits| <= oend - MFLIMIT
    requires |mem| + |s.lits| + s.mlen <= oend - LASTLITERALS
    ensures FromToken(src, ip, mem, low, oend) == FromToken(src, ip + |Encode(s)|, Apply(mem, s), low, oend)
  {
    hide FromToken, FromOffset, Roomy, Encode, EncodeRun, LE16, At, CopyMatch;
    var nibble := Nibble(s.mlen - MINMATCH);
    SplitSequence(src, ip, s);
    DecodeRun(src, ip, s.lits, nibble, mem, low, oend);
    DecodeOffset(src, ip + |EncodeRun(s.lits, nibble)|, Roomy(src, ip + 1, Nibble(|s.lits|), |mem|, oend),
                 s.offset, s.mlen, mem + s.lits, low, oend);
  }

  lemma DecodeLast(src: seq<byte>, ip: nat, last: seq<byte>, mem: seq<byte>, low: nat, oend: nat)
    requires At(src, ip, EncodeRun(last, 0)) && ip + |EncodeRun(last, 0)| == |src|
    requires |mem| + |last| <= oend
    ensures FromToken(src, ip, mem, low, oend) == Decoded(mem + last)
  {
    hide FromOffset, FromMatch, CopyMatch, Run;
    SplitRun(src, ip, last, 0);
    ReadLiteralLength(src, ip + 1, |last|);
  }

  lemma EncodeAllCons(ss: seq<Sequence>, tail: seq<byte>)
    requires AllEncodable(ss) && ss != []
    ensures EncodeAll(ss) + tail == Encode(ss[0]) + (EncodeAll(ss[1..]) + tail)
  {
    hide Encode;
  }

  /** Decoding inverts encoding: any list of sequences that keeps the end-of-block
      rules, followed by the last literals, decodes to exactly what it denotes. */
  lemma {:induction false} DecodeInvertsEncode(src: seq<byte>, ip: nat, ss: seq<Sequence>, last: seq<byte>,
                                               mem: seq<byte>, low: nat, oend: nat)
    requires AllEncodable(ss) && At(src, ip, EncodeAll(ss) + EncodeRun(last, 0))
    requires ip + |EncodeAll(ss) + EncodeRun(last, 0)| == |src|
    requires Placed(mem, ss, low, oend - MFLIMIT, oend - LASTLITERALS)
    requires ss != [] ==> |last| >= LASTLITERALS
    requires |ApplyAll(mem, ss)| + |last| <= oend
    ensures FromToken(src, ip, mem, low, oend)
      == Decoded(ApplyAll(mem, ss) + last)
    decreases |ss|
  {
    hide FromToken, At, EncodeRun, Encode, Apply;
    if ss == [] {
      assert EncodeAll(ss) + EncodeRun(last, 0) == EncodeRun(last, 0);
      DecodeLast(src, ip, last, mem, low, oend);
    } else {
      var w, rest := Encode(ss[0]), EncodeAll(ss[1..]) + EncodeRun(last, 0);
      EncodeAllCons(ss, EncodeRun(last, 0));
      AtConcat(src, ip, w, rest);
      DecodeSequence(src, ip, ss[0], mem, low, oend);
      DecodeInvertsEncode(src, ip + |w|, ss[1..], last, Apply(mem, ss[0]), low, oend);
    }
  }

  /** Every block for `content` decodes to it, whatever capacity holds the content. */
  lemma BlockDecodes(bytes: seq<byte>, mem: seq<byte>, content: seq<byte>, low: nat, capacity: nat)
    requires IsBlock(bytes, mem, content, low) && |content| <= capacity
    ensures Decompress(bytes, mem, low, capacity) == Decoded(mem + content)
  {
    hide FromToken, EncodeRun, EncodeAll, Placed, ApplyAll;
    var ss, last :| IsBlockOf(ss, last, bytes, mem, content, low);
    var oend := |mem| + capacity;
    if capacity == 0 {
      EmptyBlock(ss, last, mem, low);
      assert mem + content == mem;
    } else {
      PlacedWeaken(mem, ss, low, |mem| + |content| - MFLIMIT, |mem| + |content| - LASTLITERALS,
                   oend - MFLIMIT, oend - LASTLITERALS);
      DecodeInvertsEncode(bytes, 0, ss, last, mem, low, oend);
    }
  }

  /** The only block for no bytes at all is a single zero token. */
  lemma EmptyBlock(ss: seq<Sequence>, last: seq<byte>, mem: seq<byte>, low: nat)
    requires AllEncodable(ss) && Placed(mem, ss, low, |mem| - MFLIMIT, |mem| - LASTLITERALS)
    requires ApplyAll(mem, ss) + last == mem
    ensures EncodeAll(ss) + EncodeRun(last, 0) == [0]
  {
    hide Apply;
    assert ss == [];
    assert |last| == |mem + last| - |mem| == 0;
    assert Ext(0) == [];
  }
}
