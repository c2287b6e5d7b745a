/** LZ4_compress_generic_validated (lz/lz4.c:907-1311) for a source whose history, if any,
    precedes it in memory: a greedy match finder under three output disciplines. */
module Lz4Compressor {
  import opened Bytes
  import opened Lz4Emit
  import opened Lz4Format
  import opened Lz4Greedy
  import opened Lz4Memory
  import opened Lz4Search

  /** limitedOutput_directive (lz/lz4.c:332-336). */
  datatype Directive = NotLimited | LimitedOutput | FillOutput

  /** LZ4_COMPRESSBOUND (lz/lz4.h:213) for supported sizes. */
  function CompressBound(n: nat): (r: nat) { n + n / 255 + 16 }

  /** How much may be written: `olimit` for the limited disciplines, else the whole buffer,
      which then is as large as the documented bound. */
  ghost predicate Budget(j: Job, dst: array<byte>, d: Directive, olimit: int, lim: nat) {
    && lim <= dst.Length && j.source <= j.iend
    && (d.NotLimited? ==> lim >= CompressBound(j.iend - j.source))
    && (!d.NotLimited? ==> lim == (if olimit < 0 then 0 else olimit))
  }

  /** The output so far encodes the source up to `anchor`; the last match began at
      `lastStart`. */
  ghost predicate Progress(j: Job, dst: array<byte>, op: nat, ss: seq<Sequence>, anchor: nat, lastStart: nat,
                           d: Directive, olimit: int)
    reads dst
  {
    && j.lowLimit <= j.source <= anchor <= j.iend <= |j.mem|
    && op <= dst.Length && AllEncodable(ss) && dst[..op] == EncodeAll(ss)
    && Placed(j.mem[..j.source], ss, j.lowLimit, lastStart, anchor)
    && ApplyAll(j.mem[..j.source], ss) == j.mem[..anchor]
    && 255 * op <= 256 * (anchor - j.source) && (ss == [] ==> op == 0)
    && (ss != [] ==> && lastStart <= j.iend - MFLIMIT && lastStart <= anchor && anchor <= j.iend - LASTLITERALS
                     && (!d.NotLimited? ==> op + 1 + LASTLITERALS <= olimit)
                     && (d.FillOutput? ==> FillRoom(op, anchor, lastStart, olimit)))
  }

  /** In fill mode the last literals that fit keep the last match clear of the end. */
  predicate FillRoom(op: nat, anchor: nat, lastStart: nat, olimit: int) {
    lastStart + MINMATCH + ML_MASK <= anchor || (lastStart + MINMATCH <= anchor && op + 9 <= olimit)
  }

  lemma SequenceCost(s: Sequence)
    requires Encodable(s)
    ensures 255 * |Encode(s)| <= 256 * (|s.lits| + s.mlen)
  {
    hide EncodeRun, LE16, Ext;
  }

  // ---------------------------------------------------------------- literals

  datatype Step = Fits | Overflow | ToLastLiterals

  /** Encode literals (lz/lz4.c:1089-1115). The token's match half stays to be filled in. */
  method Literals(j: Job, dst: array<byte>, d: Directive, olimit: int, anchor: nat, ip: nat, op0: nat,
                  ghost ss: seq<Sequence>, ghost lastStart: nat, ghost lim: nat)
    returns (step: Step, op: nat)
    requires Progress(j, dst, op0, ss, anchor, lastStart, d, olimit) && Budget(j, dst, d, olimit, lim)
    requires anchor <= ip <= j.iend - MFLIMIT
    modifies dst
    ensures UntouchedFrom(dst, lim)
    ensures step.Overflow? ==> d.LimitedOutput? && olimit < CompressBound(j.iend - j.source)
    ensures step.ToLastLiterals? ==> d.FillOutput? && op == op0 && dst[..] == old(dst[..])
    ensures step.Fits? ==>
              && HalfDone(j, dst, op0, op, ss, anchor, ip, lastStart)
              && (d.LimitedOutput? ==> op + 7 <= olimit) && (d.FillOutput? ==> op + 11 <= olimit)
    ensures var n := ip - anchor;
            && (step.Overflow? <==> d.LimitedOutput? && op0 + 9 + n + n / 255 > olimit)
            && (step.ToLastLiterals? <==> d.FillOutput? && op0 + 12 + n + (n + 240) / 255 > olimit)
  {
    hide Ext, EncodeRun, EncodeAll, Placed, ApplyAll, AllEncodable;
    var litLength := ip - anchor;
    op := op0 + 1;
    if d.LimitedOutput? && op + litLength + (2 + 1 + LASTLITERALS) + litLength / 255 > olimit {
      return Overflow, op;
    }
    if d.FillOutput?
       && op + (litLength + 240) / 255 + litLength + 2 + 1 + MFLIMIT - MINMATCH > olimit {
      return ToLastLiterals, op - 1;
    }
    assert |dst[..op0]| == op0;
    op := EmitLiterals(j.mem, anchor, litLength, dst, op0, lim);
    step := Fits;
  }

  // ---------------------------------------------------------------- matches

  /** Slot `h` is that of a position from `from` on, before `to`. */
  ghost predicate Cleared(j: Job, from: nat, to: nat, h: nat)
    requires to + 7 <= |j.mem|
  {
    exists p :: from <= p < to && j.Slot(p) == h
  }

  /** Removes the entries of positions `ip..filledIp` (lz/lz4.c:1168-1172). Every entry
      sits in the slot of its own position, so none at or above `ip` survives. */
  method ClearHash(j: Job, table: array<nat>, ip: nat, filledIp: nat)
    requires j.source < ip <= filledIp && filledIp + 8 <= |j.mem| && TableOk(j, table, j.Index(filledIp) + 1)
    modifies table
    ensures TableOk(j, table, j.Index(ip))
    ensures forall h :: 0 <= h < table.Length ==> table[h] == if Cleared(j, ip, filledIp + 1, h) then 0 else old(table[h])
  {
    var ptr := ip;
    while ptr <= filledIp
      invariant ip <= ptr <= filledIp + 1 && TableOk(j, table, j.Index(filledIp) + 1)
      invariant forall h :: 0 <= h < table.Length ==> table[h] < j.Index(ip) || j.Index(ptr) <= table[h]
      invariant forall h :: 0 <= h < table.Length ==> table[h] == if Cleared(j, ip, ptr, h) then 0 else old(table[h])
    {
      var h := j.Slot(ptr);
      forall h' | 0 <= h' < table.Length && h' != h ensures table[h'] != j.Index(ptr) {
        assert EntryOk(j, h', table[h'], j.Index(filledIp) + 1);
      }
      table[h] := 0;
      ptr := ptr + 1;
    }
    forall h | 0 <= h < table.Length ensures EntryOk(j, h, table[h], j.Index(ip)) {
      assert EntryOk(j, h, table[h], j.Index(filledIp) + 1);
    }
  }

  /** The length of a match, cut short in fill mode when its length bytes would not leave
      room for the last literals (lz/lz4.c:1157-1180). */
  method MatchCode(j: Job, table: array<nat>, d: Directive, olimit: int, op: nat, ip0: nat, match_: nat,
                   filledIp: nat, ghost top: nat)
    returns (overflow: bool, matchCode: nat, ip: nat)
    requires j.Legal() && j.source <= ip0 <= top <= j.iend - MFLIMIT && match_ < ip0
    requires filledIp <= j.iend - MFLIMIT && (top <= filledIp || top == ip0)
    requires SameBytes(j.mem, match_, ip0, top - ip0 + MINMATCH) && TableOk(j, table, j.Index(top) + 1)
    requires d.FillOutput? ==> op + 9 <= olimit
    modifies table
    ensures TableOk(j, table, j.Index(j.iend))
    ensures overflow ==> && d.LimitedOutput? && ip0 + MINMATCH + matchCode <= j.iend - LASTLITERALS
                         && op + (1 + LASTLITERALS) + (matchCode + 240) / 255 > olimit
    ensures !overflow ==>
              && ip == ip0 + MINMATCH + matchCode <= j.iend - LASTLITERALS
              && SameBytes(j.mem, match_, ip0, MINMATCH + matchCode) && TableOk(j, table, j.Index(ip))
              && (!d.NotLimited? ==> op + 1 + LASTLITERALS + |Ext(matchCode)| <= olimit)
              && (d.FillOutput? ==> matchCode >= ML_MASK || op + 9 <= olimit)
    ensures var code := Match(j, ip0, ip0, match_).mlen - MINMATCH;
            && (overflow ==> matchCode == code)
            && (!overflow ==> if d.FillOutput? && op + 6 + (code + 240) / 255 > olimit then
                                matchCode == 14 + (olimit - op - 6) * 255
                              else matchCode == code && table[..] == old(table[..]))
  {
    hide Ext;
    overflow := false;
    matchCode := Count(j.mem, ip0 + MINMATCH, match_ + MINMATCH, j.Matchlimit());
    CommonLengthIs(j.mem, match_ + MINMATCH, ip0 + MINMATCH, j.iend - LASTLITERALS, matchCode);
    ip := ip0 + matchCode + MINMATCH;
    assert SameBytes(j.mem, match_, ip0, MINMATCH);
    SameBytesSum(j.mem, match_, ip0, MINMATCH, matchCode);
    assert top < ip;
    TableWeaken(j, table, j.Index(top) + 1, j.Index(ip));
    TableWeaken(j, table, j.Index(top) + 1, j.Index(j.iend));
    if !d.NotLimited? && op + (1 + LASTLITERALS) + (matchCode + 240) / 255 > olimit {
      if !d.FillOutput? { return true, matchCode, ip; }
      matchCode, ip := CutMatch(j, table, olimit, op, ip0, ip, matchCode, filledIp, top);
    }
  }

  /** The longest match whose length bytes leave room, and the table without the positions that
      it no longer covers (lz/lz4.c:1163-1174). */
  method CutMatch(j: Job, table: array<nat>, olimit: int, op: nat, ip0: nat, ip1: nat, matchCode1: nat, filledIp: nat, ghost top: nat)
    returns (matchCode: nat, ip: nat)
    requires j.Legal() && j.source <= ip0 <= top <= j.iend - MFLIMIT && filledIp <= j.iend - MFLIMIT
    requires top <= filledIp || top == ip0
    requires ip1 == ip0 + MINMATCH + matchCode1 <= j.iend - LASTLITERALS && top < ip1
    requires TableOk(j, table, j.Index(top) + 1) && op + 9 <= olimit && op + 6 + (matchCode1 + 240) / 255 > olimit
    modifies table
    ensures matchCode == 14 + (olimit - op - 6) * 255 < matchCode1 && ip == ip0 + MINMATCH + matchCode
    ensures op + 6 + (matchCode + 240) / 255 == olimit && TableOk(j, table, j.Index(ip)) && TableOk(j, table, j.Index(j.iend))
  {
    matchCode := 15 - 1 + (olimit - op - 1 - LASTLITERALS) * 255;
    ip := ip1 - (matchCode1 - matchCode);
    if ip <= filledIp {
      TableWeaken(j, table, j.Index(top) + 1, j.Index(filledIp) + 1);
      ClearHash(j, table, ip, filledIp);
    } else {
      TableWeaken(j, table, j.Index(top) + 1, j.Index(ip));
    }
    TableWeaken(j, table, j.Index(ip), j.Index(j.iend));
  }

  /** A found match continues the source, so its sequence extends the encoding. */
  lemma Extend(j: Job, dst: array<byte>, op0: nat, op: nat, ss: seq<Sequence>, anchor: nat, lastStart: nat,
               d: Directive, olimit: int, ip0: nat, match_: nat, matchCode: nat, before: seq<byte>)
    requires AllEncodable(ss) && before == EncodeAll(ss) && |before| == op0
    requires j.lowLimit <= j.source <= anchor <= ip0 <= j.iend - MFLIMIT && j.iend <= |j.mem|
    requires Placed(j.mem[..j.source], ss, j.lowLimit, lastStart, anchor) && (ss != [] ==> lastStart <= ip0)
    requires ApplyAll(j.mem[..j.source], ss) == j.mem[..anchor] && 255 * op0 <= 256 * (anchor - j.source)
    requires j.lowLimit <= match_ < ip0 && ip0 - match_ <= DISTANCE_MAX
    requires SameBytes(j.mem, match_, ip0, MINMATCH + matchCode)
    requires ip0 + MINMATCH + matchCode <= j.iend - LASTLITERALS
    requires op <= dst.Length && dst[..op] == before + Encode(Sequence(j.mem[anchor..ip0], ip0 - match_, matchCode + MINMATCH))
    requires !d.NotLimited? ==> op + 1 + LASTLITERALS <= olimit
    requires d.FillOutput? ==> matchCode >= ML_MASK || op + 9 <= olimit
    ensures Progress(j, dst, op, ss + [Sequence(j.mem[anchor..ip0], ip0 - match_, matchCode + MINMATCH)],
                     ip0 + MINMATCH + matchCode, ip0, d, olimit)
  {
    hide EncodeAll, Encode, Placed, ApplyAll, AllEncodable, CopyMatch;
    var s := Sequence(j.mem[anchor..ip0], ip0 - match_, matchCode + MINMATCH);
    var mem0 := j.mem[..j.source];
    assert j.mem[..anchor] + s.lits == j.mem[..ip0];
    CopyMatchIs(j.mem, ip0, s.offset, s.mlen);
    ApplyAllSnoc(mem0, ss, s);
    assert PlacedOne(ApplyAll(mem0, ss), s, j.lowLimit, ip0, ip0 + s.mlen);
    if ss == [] { PlacedNone(mem0, j.lowLimit, ip0, anchor); }
    PlacedSnoc(mem0, ss, s, j.lowLimit, if ss == [] then ip0 else lastStart, anchor, ip0, ip0 + s.mlen);
    EncodeAllSnoc(ss, s);
    SequenceCost(s);
  }

  lemma PlacedNone(mem: seq<byte>, low: nat, lastStart: int, lastEnd: int)
    ensures Placed(mem, [], low, lastStart, lastEnd)
  {
  }

  /** The token at `token` and the literals up to `ip` are out, the match half is not. */
  ghost predicate HalfDone(j: Job, dst: array<byte>, token: nat, op: nat, ss: seq<Sequence>, anchor: nat, ip: nat,
                           lastStart: nat)
    reads dst
  {
    && j.source <= anchor <= ip <= |j.mem|
    && AllEncodable(ss) && token == |EncodeAll(ss)| && 255 * token <= 256 * (anchor - j.source)
    && Placed(j.mem[..j.source], ss, j.lowLimit, lastStart, anchor) && (ss != [] ==> lastStart <= ip)
    && ApplyAll(j.mem[..j.source], ss) == j.mem[..anchor]
    && op == token + 1 + |Ext(ip - anchor)| + (ip - anchor) && op <= dst.Length
    && dst[..op] == EncodeAll(ss) + EncodeRun(j.mem[anchor..ip], 0)
  }

  /** The match is out: the sequence is complete. */
  method EmitOut(j: Job, dst: array<byte>, d: Directive, olimit: int, anchor: nat, ip0: nat, match_: nat, matchCode: nat,
                 token: nat, op0: nat, ghost ss: seq<Sequence>, ghost lastStart: nat, ghost lim: nat)
    returns (op: nat)
    requires j.Legal() && j.source <= anchor <= ip0 <= j.iend - MFLIMIT
    requires j.lowLimit <= match_ < ip0 && ip0 - match_ <= DISTANCE_MAX
    requires SameBytes(j.mem, match_, ip0, MINMATCH + matchCode) && ip0 + MINMATCH + matchCode <= j.iend - LASTLITERALS
    requires Budget(j, dst, d, olimit, lim) && HalfDone(j, dst, token, op0, ss, anchor, ip0, lastStart)
    requires !d.NotLimited? ==> op0 + 2 + 1 + LASTLITERALS + |Ext(matchCode)| <= olimit
    requires d.FillOutput? ==> matchCode >= ML_MASK || op0 + 11 <= olimit
    modifies dst
    ensures UntouchedFrom(dst, lim) && op == op0 + 2 + |Ext(matchCode)|
    ensures Progress(j, dst, op, ss + [Sequence(j.mem[anchor..ip0], ip0 - match_, matchCode + MINMATCH)],
                     ip0 + MINMATCH + matchCode, ip0, d, olimit)
  {
    hide EncodeAll, Encode, EncodeRun, Placed, ApplyAll, AllEncodable, CopyMatch, Ext;
    op := EmitMatch(dst, token, op0, ip0 - match_, matchCode, EncodeAll(ss), j.mem[anchor..ip0], lim);
    Extend(j, dst, token, op, ss, anchor, lastStart, d, olimit, ip0, match_, matchCode, EncodeAll(ss));
  }

  /** What becomes of the sequence `s`: it does not fit, or it is out, perhaps cut short. */
  predicate NextIs(j: Job, d: Directive, olimit: int, s: Sequence, token: nat, op: nat, ip0: nat, ip: nat, step: Step,
                   ss: seq<Sequence>, ss': seq<Sequence>, t: seq<nat>, t': seq<nat>)
  {
    var op2, ext := token + HeadSize(s), (Code(s) + 240) / 255;
    match step
    case Overflow => op2 + 6 + ext > olimit
    case ToLastLiterals => op2 + 9 > olimit && ss' == ss
    case Fits =>
      && ss' != [] && ip == ip0 + ss'[|ss'| - 1].mlen && (d.FillOutput? ==> op2 + 9 <= olimit)
      && if d.FillOutput? && op2 + 6 + ext > olimit then
           op + 6 >= olimit && ss' == ss + [s.(mlen := 18 + (olimit - op2 - 6) * 255)]
         else ss' == ss + [s] && op == op2 + ext && t' == t
  }

  lemma TokenBefore(j: Job, dst: array<byte>, token: nat, op: nat, ss: seq<Sequence>, anchor: nat, ip: nat, lastStart: nat)
    requires HalfDone(j, dst, token, op, ss, anchor, ip, lastStart)
    ensures token <= dst.Length && dst[..token] == EncodeAll(ss)
  {
    hide EncodeAll, EncodeRun, Placed, ApplyAll, AllEncodable;
    assert dst[..token] == dst[..op][..token];
  }

  lemma OverBound(j: Job, dst: array<byte>, token: nat, op: nat, ss: seq<Sequence>, anchor: nat, ip: nat, lastStart: nat,
                  matchCode: nat, olimit: int)
    requires HalfDone(j, dst, token, op, ss, anchor, ip, lastStart) && ip + MINMATCH + matchCode + LASTLITERALS <= j.iend
    requires op + 2 + 6 + (matchCode + 240) / 255 > olimit
    ensures olimit < CompressBound(j.iend - j.source)
  {
    hide EncodeAll, EncodeRun, Placed, ApplyAll, AllEncodable;
  }

  lemma HeadIs(j: Job, dst: array<byte>, token: nat, op: nat, ss: seq<Sequence>, anchor: nat, ip: nat, lastStart: nat, m: nat)
    requires HalfDone(j, dst, token, op, ss, anchor, ip, lastStart) && j.iend <= |j.mem| && m < ip && ip + MFLIMIT <= j.iend
    ensures op + 2 == token + HeadSize(Match(j, anchor, ip, m)) && Match(j, anchor, ip, m).lits == j.mem[anchor..ip]
    ensures Match(j, anchor, ip, m).offset == ip - m
  {
    hide EncodeAll, EncodeRun, Placed, ApplyAll, AllEncodable;
  }

  lemma SameMatch(j: Job, anchor: nat, ip: nat, m: nat)
    requires j.iend <= |j.mem| && anchor <= ip && m < ip && ip + MFLIMIT <= j.iend
    ensures Match(j, anchor, ip, m) == Sequence(j.mem[anchor..ip], ip - m, Match(j, ip, ip, m).mlen)
    ensures Code(Match(j, anchor, ip, m)) + MINMATCH == Match(j, ip, ip, m).mlen
  {
  }

  lemma NextStops(j: Job, d: Directive, olimit: int, s: Sequence, token: nat, op: nat, ip0: nat, ip: nat, ss: seq<Sequence>,
                  t: seq<nat>, t': seq<nat>)
    requires token + HeadSize(s) + 9 > olimit
    ensures NextIs(j, d, olimit, s, token, op, ip0, ip, ToLastLiterals, ss, ss, t, t')
  {
  }

  lemma NextOver(j: Job, d: Directive, olimit: int, s: Sequence, token: nat, op: nat, ip0: nat, ip: nat, ss: seq<Sequence>,
                 t: seq<nat>, t': seq<nat>, code: nat)
    requires code == Code(s) && token + HeadSize(s) + 6 + (code + 240) / 255 > olimit
    ensures NextIs(j, d, olimit, s, token, op, ip0, ip, Overflow, ss, ss, t, t')
  {
  }

  lemma NextFits(j: Job, d: Directive, olimit: int, s: Sequence, token: nat, op: nat, ip0: nat, ip: nat, ss: seq<Sequence>,
                 ss': seq<Sequence>, t: seq<nat>, t': seq<nat>, code: nat)
    requires ss' == ss + [s.(mlen := code + MINMATCH)] && ip == ip0 + MINMATCH + code && s.mlen >= MINMATCH
    requires op == token + HeadSize(s) + |Ext(code)| && (d.FillOutput? ==> token + HeadSize(s) + 9 <= olimit)
    requires if d.FillOutput? && token + HeadSize(s) + 6 + (Code(s) + 240) / 255 > olimit then
               code == 14 + (olimit - token - HeadSize(s) - 6) * 255
             else code == Code(s) && t' == t
    ensures NextIs(j, d, olimit, s, token, op, ip0, ip, Fits, ss, ss', t, t')
  {
  }

  /** The label _next_match (lz/lz4.c:1117-1203): offset and length of the match at `ip0`,
      after the token and literals that end at `op0`. */
  method NextMatch(j: Job, table: array<nat>, dst: array<byte>, d: Directive, olimit: int, anchor: nat, ip0: nat,
                   match_: nat, filledIp: nat, token: nat, op0: nat, ghost top: nat,
                   ghost ss: seq<Sequence>, ghost lastStart: nat, ghost lim: nat, ghost goal: Goal, ghost acc: nat)
    returns (step: Step, op: nat, ip: nat, ghost ss': seq<Sequence>)
    requires j.Legal() && j.source <= anchor <= ip0 <= top <= j.iend - MFLIMIT
    requires j.lowLimit <= match_ < ip0 && ip0 - match_ <= DISTANCE_MAX
    requires filledIp <= j.iend - MFLIMIT && (top <= filledIp || top == ip0)
    requires SameBytes(j.mem, match_, ip0, top - ip0 + MINMATCH) && TableOk(j, table, j.Index(top) + 1)
    requires Budget(j, dst, d, olimit, lim) && table as object != dst
    requires HalfDone(j, dst, token, op0, ss, anchor, ip0, lastStart)
    requires d.LimitedOutput? ==> op0 + 2 <= olimit
    requires acc >= 1 && goal.fill == d.FillOutput? && goal.olimit == olimit
    requires Tracks(goal, j, token, anchor, ss, Chain(j, table[..], anchor, ip0, match_, acc))
    modifies table, dst
    ensures UntouchedFrom(dst, lim) && TableOk(j, table, j.Index(j.iend))
    ensures step.Overflow? ==> d.LimitedOutput? && olimit < CompressBound(j.iend - j.source) && goal.ss != [] && goal.size + 6 > olimit
    ensures step.ToLastLiterals? ==>
              && d.FillOutput? && op == token && dst[..op] == EncodeAll(ss) && op0 + 11 > olimit
              && Tracks(goal, j, token, anchor, ss, Parse([], table[..]))
    ensures step.Fits? ==>
              && ip0 + MINMATCH <= ip && TableOk(j, table, j.Index(ip))
              && ss' != [] && Progress(j, dst, op, ss', ip, ip0, d, olimit)
              && ip <= j.Matchlimit() && Tracks(goal, j, op, ip, ss', After(j, table[..], ip, acc))
  {
    ghost var t := table[..];
    assert Room(j, t);
    hide EncodeAll, Encode, EncodeRun, Placed, ApplyAll, AllEncodable, Ext, TableOk, SameBytes, NextIs, Tracks, Chain, After,
         HalfDone, Progress, Match, HeadSize, Budget;
    HeadIs(j, dst, token, op0, ss, anchor, ip0, lastStart, match_);
    if d.FillOutput? && op0 + 2 + 1 + MFLIMIT - MINMATCH > olimit {
      TokenBefore(j, dst, token, op0, ss, anchor, ip0, lastStart);
      TableWeaken(j, table, j.Index(top) + 1, j.Index(j.iend));
      NextStops(j, d, olimit, Match(j, anchor, ip0, match_), token, token, ip0, ip0, ss, t, t);
      NextTracked(goal, j, d, olimit, token, token, anchor, ip0, match_, ip0, ToLastLiterals, ss, ss, t, t, acc);
      return ToLastLiterals, token, ip0, ss;
    }
    var overflow, matchCode;
    overflow, matchCode, op, ip :=
      EmitRest(j, table, dst, d, olimit, anchor, ip0, match_, filledIp, token, op0, top, ss, lastStart, lim);
    if overflow {
      OverTracked(goal, j, d, olimit, token, op0, anchor, ip0, match_, ss, t, table[..], matchCode, acc);
      return Overflow, op0, ip0, ss;
    }
    step := Fits;
    ss' := ss + [Sequence(j.mem[anchor..ip0], ip0 - match_, matchCode + MINMATCH)];
    FitsTracked(goal, j, d, olimit, token, op0, op, anchor, ip0, match_, ip, ss, ss', t, table[..], matchCode, acc);
  }

  /** The length of the match and, unless it passes the limit, the rest of its sequence
      (lz/lz4.c:1140-1203). */
  method EmitRest(j: Job, table: array<nat>, dst: array<byte>, d: Directive, olimit: int, anchor: nat, ip0: nat, match_: nat,
                  filledIp: nat, token: nat, op0: nat, ghost top: nat, ghost ss: seq<Sequence>, ghost lastStart: nat,
                  ghost lim: nat)
    returns (overflow: bool, matchCode: nat, op: nat, ip: nat)
    requires j.Legal() && j.source <= anchor <= ip0 <= top <= j.iend - MFLIMIT
    requires j.lowLimit <= match_ < ip0 && ip0 - match_ <= DISTANCE_MAX
    requires filledIp <= j.iend - MFLIMIT && (top <= filledIp || top == ip0)
    requires SameBytes(j.mem, match_, ip0, top - ip0 + MINMATCH) && TableOk(j, table, j.Index(top) + 1)
    requires Budget(j, dst, d, olimit, lim) && table as object != dst
    requires HalfDone(j, dst, token, op0, ss, anchor, ip0, lastStart)
    requires d.FillOutput? ==> op0 + 11 <= olimit
    modifies table, dst
    ensures UntouchedFrom(dst, lim) && TableOk(j, table, j.Index(j.iend))
    ensures overflow ==> d.LimitedOutput? && olimit < CompressBound(j.iend - j.source) && op0 + 8 + (matchCode + 240) / 255 > olimit
    ensures !overflow ==>
              && op == op0 + 2 + |Ext(matchCode)| && ip == ip0 + MINMATCH + matchCode <= j.Matchlimit()
              && TableOk(j, table, j.Index(ip))
              && Progress(j, dst, op, ss + [Sequence(j.mem[anchor..ip0], ip0 - match_, matchCode + MINMATCH)], ip, ip0, d, olimit)
    ensures var code := Match(j, ip0, ip0, match_).mlen - MINMATCH;
            && (overflow ==> matchCode == code)
            && (!overflow ==> if d.FillOutput? && op0 + 2 + 6 + (code + 240) / 255 > olimit then
                                matchCode == 14 + (olimit - op0 - 2 - 6) * 255
                              else matchCode == code && table[..] == old(table[..]))
  {
    hide EncodeAll, Encode, EncodeRun, Placed, ApplyAll, AllEncodable, Ext, TableOk, SameBytes, HalfDone, Progress, Match;
    overflow, matchCode, ip := MatchCode(j, table, d, olimit, op0 + 2, ip0, match_, filledIp, top);
    op := op0;
    if overflow {
      OverBound(j, dst, token, op0, ss, anchor, ip0, lastStart, matchCode, olimit);
      return;
    }
    op := EmitOut(j, dst, d, olimit, anchor, ip0, match_, matchCode, token, op0, ss, lastStart, lim);
  }

  lemma OverTracked(goal: Goal, j: Job, d: Directive, olimit: int, token: nat, op0: nat, anchor: nat, ip0: nat,
                    match_: nat, ss: seq<Sequence>, t: seq<nat>, t': seq<nat>, code: nat, acc: nat)
    requires Room(j, t) && j.source <= anchor <= ip0 && match_ < ip0 && ip0 + MFLIMIT <= j.iend && acc >= 1 && |t'| == |t|
    requires goal.fill == d.FillOutput? && goal.olimit == olimit && d.LimitedOutput?
    requires op0 + 2 == token + HeadSize(Match(j, anchor, ip0, match_))
    requires Tracks(goal, j, token, anchor, ss, Chain(j, t, anchor, ip0, match_, acc))
    requires code + MINMATCH == Match(j, ip0, ip0, match_).mlen && op0 + 2 + 6 + (code + 240) / 255 > olimit
    ensures goal.ss != [] && goal.size + 6 > olimit
  {
    hide Tracks, After, Match, NextIs, Chain;
    SameMatch(j, anchor, ip0, match_);
    NextOver(j, d, olimit, Match(j, anchor, ip0, match_), token, token, ip0, ip0, ss, t, t', code);
    NextTracked(goal, j, d, olimit, token, token, anchor, ip0, match_, ip0, Overflow, ss, ss, t, t', acc);
  }

  lemma FitsTracked(goal: Goal, j: Job, d: Directive, olimit: int, token: nat, op0: nat, op: nat, anchor: nat, ip0: nat,
                    match_: nat, ip: nat, ss: seq<Sequence>, ss': seq<Sequence>, t: seq<nat>, t': seq<nat>, code: nat, acc: nat)
    requires Room(j, t) && j.source <= anchor <= ip0 && match_ < ip0 && ip0 + MFLIMIT <= j.iend && acc >= 1 && |t'| == |t|
    requires goal.fill == d.FillOutput? && goal.olimit == olimit
    requires Tracks(goal, j, token, anchor, ss, Chain(j, t, anchor, ip0, match_, acc))
    requires op0 + 2 == token + HeadSize(Match(j, anchor, ip0, match_)) && op == op0 + 2 + |Ext(code)|
    requires ss' == ss + [Sequence(j.mem[anchor..ip0], ip0 - match_, code + MINMATCH)]
    requires ip == ip0 + MINMATCH + code <= j.Matchlimit() && (d.FillOutput? ==> op0 + 11 <= olimit)
    requires var full := Match(j, ip0, ip0, match_).mlen - MINMATCH;
             if d.FillOutput? && op0 + 2 + 6 + (full + 240) / 255 > olimit then code == 14 + (olimit - op0 - 2 - 6) * 255
             else code == full && t' == t
    ensures Tracks(goal, j, op, ip, ss', After(j, t', ip, acc))
  {
    hide Tracks, After, Match, NextIs, Chain, HeadSize, Ext;
    SameMatch(j, anchor, ip0, match_);
    var s := Match(j, anchor, ip0, match_);
    assert s.(mlen := code + MINMATCH) == Sequence(j.mem[anchor..ip0], ip0 - match_, code + MINMATCH);
    NextFits(j, d, olimit, s, token, op, ip0, ip, ss, ss', t, t', code);
    NextTracked(goal, j, d, olimit, token, op, anchor, ip0, match_, ip, Fits, ss, ss', t, t', acc);
  }

  lemma NextTracked(goal: Goal, j: Job, d: Directive, olimit: int, token: nat, op: nat, anchor: nat, ip0: nat, match_: nat,
                    ip: nat, step: Step, ss: seq<Sequence>, ss': seq<Sequence>, t: seq<nat>, t': seq<nat>, acc: nat)
    requires Room(j, t) && j.source <= anchor <= ip0 && match_ < ip0 && ip0 + MFLIMIT <= j.iend && acc >= 1 && |t'| == |t|
    requires goal.fill == d.FillOutput? && goal.olimit == olimit
    requires Tracks(goal, j, token, anchor, ss, Chain(j, t, anchor, ip0, match_, acc))
    requires NextIs(j, d, olimit, Match(j, anchor, ip0, match_), token, op, ip0, ip, step, ss, ss', t, t')
    requires step.Overflow? ==> d.LimitedOutput?
    requires step.ToLastLiterals? ==> d.FillOutput?
    ensures step.Overflow? ==> goal.ss != [] && goal.size + 6 > olimit
    ensures step.ToLastLiterals? ==> Tracks(goal, j, token, anchor, ss, Parse([], t'))
    ensures step.Fits? && ip0 + MINMATCH <= ip <= j.Matchlimit() ==> Tracks(goal, j, op, ip, ss', After(j, t', ip, acc))
  {
    hide Tracks, After, Match;
    var s := Match(j, anchor, ip0, match_);
    var rest := After(j, t, ip0 + s.mlen, acc);
    match step {
      case Overflow => TracksOver(goal, j, token, anchor, ss, s, rest);
      case ToLastLiterals => TracksStop(goal, j, token, anchor, ss, s, rest, Parse([], t'));
      case Fits =>
        if d.FillOutput? && token + HeadSize(s) + 6 + (Code(s) + 240) / 255 > olimit {
          if ip0 + MINMATCH <= ip <= j.Matchlimit() {
            TracksCut(goal, j, token, anchor, ss, s, rest, ss'[|ss'| - 1], op, After(j, t', ip, acc));
          }
        } else {
          TracksTake(goal, j, token, anchor, ss, s, rest);
        }
    }
  }

  /** Fill the table two bytes back, then probe at the next position (lz/lz4.c:1210-1271). */
  method TestNext(j: Job, table: array<nat>, ip: nat, ghost acc: nat) returns (found: bool, match_: nat)
    requires j.Legal() && j.source + 4 <= ip < j.Mflimit1() && TableOk(j, table, j.Index(ip)) && acc >= 1
    modifies table
    ensures TableOk(j, table, j.Index(ip) + 1)
    ensures found ==>
              j.lowLimit <= match_ < ip && ip - match_ <= DISTANCE_MAX && Same4(j.mem, match_, ip)
    ensures Room(j, old(table[..])) && After(j, old(table[..]), ip, acc) ==
              if found then Chain(j, table[..], ip, ip, match_, acc) else Rounds(j, table[..], ip, ip + 1, acc)
  {
    hide Chain, Rounds;
    PutIndex(j, table, ip - 2, j.Slot(ip - 2), j.Index(ip));
    found, match_ := StoreAndTest(j, table, ip, j.Slot(ip), table[j.Slot(ip)]);
  }

  // ---------------------------------------------------------------- the last literals

  /** The label _last_literals (lz/lz4.c:1275-1308). In fill mode the run is cut to what
      fits, and `consumed` says how much of the source the block holds. */
  method LastLiterals(j: Job, dst: array<byte>, d: Directive, olimit: int, anchor: nat, op0: nat,
                      ghost ss: seq<Sequence>, ghost lastStart: nat, ghost lim: nat)
    returns (result: nat, consumed: nat)
    requires Progress(j, dst, op0, ss, anchor, lastStart, d, olimit) && Budget(j, dst, d, olimit, lim)
    requires d.FillOutput? ==> op0 < olimit
    modifies dst
    ensures UntouchedFrom(dst, lim)
    ensures result == 0 ==> d.LimitedOutput? && olimit < CompressBound(j.iend - j.source)
    ensures result <= dst.Length && consumed <= j.iend - j.source && (!d.FillOutput? ==> consumed == j.iend - j.source)
    ensures result > 0 ==>
              && result <= lim && (d.NotLimited? ==> result <= CompressBound(j.iend - j.source))
              && IsBlock(dst[..result], j.mem[..j.source], j.mem[j.source..j.source + consumed], j.lowLimit)
    ensures EndsAs(j, d, olimit, anchor, op0, result, consumed)
    ensures result > 0 ==>
              && anchor <= j.source + consumed <= j.iend
              && dst[..result] == EncodeAll(ss) + EncodeRun(j.mem[anchor..j.source + consumed], 0)
  {
    hide EncodeAll, EncodeRun, Placed, ApplyAll, AllEncodable, Ext, IsBlockOf, EndsAs;
    var lastRun := j.iend - anchor;
    consumed := j.iend - j.source;
    if !d.NotLimited? && op0 + lastRun + 1 + (lastRun + 255 - RUN_MASK) / 255 > olimit {
      if !d.FillOutput? {
        EndsNot(j, d, olimit, anchor, op0, consumed);
        return 0, consumed;
      }
      lastRun := olimit - op0 - 1;
      lastRun := lastRun - (lastRun + 256 - RUN_MASK) / 256;
      LastRunFits(olimit - op0 - 1, j.iend - anchor);
    }
    ghost var last := j.mem[anchor..anchor + lastRun];
    result := EmitLast(j.mem, anchor, lastRun, dst, op0, lim);
    consumed := anchor + lastRun - j.source;
    Finish(j, ss, last, anchor, lastStart, anchor + lastRun, dst[..result]);
    EndsRight(j, d, olimit, anchor, op0, result, consumed, lastRun);
  }

  lemma EndsNot(j: Job, d: Directive, olimit: int, anchor: nat, op: nat, consumed: nat)
    requires d.LimitedOutput? && j.source <= anchor <= j.iend && op + RunSize(j.iend - anchor) > olimit
    ensures EndsAs(j, d, olimit, anchor, op, 0, consumed)
  {
  }

  lemma EndsRight(j: Job, d: Directive, olimit: int, anchor: nat, op: nat, result: nat, consumed: nat, run: nat)
    requires j.source <= anchor <= j.iend && result == op + RunSize(run) && consumed == anchor + run - j.source
    requires if d.NotLimited? || op + RunSize(j.iend - anchor) <= olimit then run == j.iend - anchor
             else
               && d.FillOutput? && run < j.iend - anchor && run + (run + 240) / 255 <= olimit - op - 1
               && run + 1 + (run + 241) / 255 > olimit - op - 1 && run + (run + 240) / 255 + 1 >= olimit - op - 1
    ensures EndsAs(j, d, olimit, anchor, op, result, consumed)
  {
  }

  /** How a block ends: with all that is left, if it fits; otherwise not at all, or in fill mode
      with as many literals as fit. */
  predicate EndsAs(j: Job, d: Directive, olimit: int, anchor: nat, op: nat, result: nat, consumed: nat) {
    var left := j.iend - anchor;
    && left >= 0 && j.source <= anchor
    && if d.NotLimited? || op + RunSize(left) <= olimit then consumed == j.iend - j.source && result == op + RunSize(left)
       else if d.LimitedOutput? then result == 0
       else
         var n := j.source + consumed - anchor;
         0 <= n < left && result == op + RunSize(n) && olimit - 1 <= result <= olimit && olimit < op + RunSize(n + 1)
  }

  /** The adjusted run fits with its length bytes, one literal more would not, and it is not
      longer than what was left. */
  lemma LastRunFits(room: nat, left: nat)
    requires left + (left + 240) / 255 > room
    ensures var n := room - (room + 241) / 256;
            && 0 <= n <= left && n + (n + 240) / 255 <= room
            && (room >= 5 ==> n >= 5) && (room >= 8 ==> n >= 8)
            && n < left && n + 1 + (n + 241) / 255 > room && n + (n + 240) / 255 + 1 >= room
  {
  }

  lemma Finish(j: Job, ss: seq<Sequence>, last: seq<byte>, anchor: nat, lastStart: nat, end: nat, bytes: seq<byte>)
    requires j.source <= anchor <= end <= |j.mem| && last == j.mem[anchor..end]
    requires AllEncodable(ss) && bytes == EncodeAll(ss) + EncodeRun(last, 0)
    requires Placed(j.mem[..j.source], ss, j.lowLimit, lastStart, anchor)
    requires ApplyAll(j.mem[..j.source], ss) == j.mem[..anchor]
    requires ss != [] ==> end >= anchor + LASTLITERALS && lastStart + MFLIMIT <= end
    ensures IsBlock(bytes, j.mem[..j.source], j.mem[j.source..end], j.lowLimit)
  {
    hide EncodeAll, EncodeRun, ApplyAll, AllEncodable;
    var mem0, content := j.mem[..j.source], j.mem[j.source..end];
    assert mem0 + content == j.mem[..end] == j.mem[..anchor] + last;
    if ss == [] {
      PlacedNone(mem0, j.lowLimit, end - MFLIMIT, end - LASTLITERALS);
    } else {
      PlacedWeaken(mem0, ss, j.lowLimit, lastStart, anchor, end - MFLIMIT, end - LASTLITERALS);
    }
    assert IsBlockOf(ss, last, bytes, mem0, content, j.lowLimit);
  }

  // ---------------------------------------------------------------- the whole block

  lemma NoLiterals(j: Job, dst: array<byte>, op: nat, ss: seq<Sequence>, anchor: nat, lastStart: nat)
    requires op < dst.Length && dst[op] == 0 && AllEncodable(ss) && dst[..op] == EncodeAll(ss)
    requires j.source <= anchor <= |j.mem| && 255 * op <= 256 * (anchor - j.source)
    requires Placed(j.mem[..j.source], ss, j.lowLimit, lastStart, anchor) && (ss != [] ==> lastStart <= anchor)
    requires ApplyAll(j.mem[..j.source], ss) == j.mem[..anchor]
    ensures HalfDone(j, dst, op, op + 1, ss, anchor, anchor, lastStart)
  {
    assert dst[..op + 1] == dst[..op] + [0];
    assert j.mem[anchor..anchor] == [];
    assert EncodeRun([], 0) == [0];
  }

  /** A match and every match found right behind it, until none is or the block nears its
      end (lz/lz4.c:1117-1271). */
  method MatchChain(j: Job, table: array<nat>, dst: array<byte>, d: Directive, olimit: int, anchor0: nat, ip0: nat,
                    match0: nat, filledIp: nat, token0: nat, op0: nat,
                    ghost ss0: seq<Sequence>, ghost lastStart0: nat, ghost lim: nat, ghost goal: Goal, ghost acc: nat)
    returns (step: Step, op: nat, anchor: nat, ghost ss: seq<Sequence>, ghost lastStart: nat)
    requires j.Legal() && j.source <= anchor0 <= ip0 <= filledIp <= j.iend - MFLIMIT
    requires j.lowLimit <= match0 < ip0 && ip0 - match0 <= DISTANCE_MAX
    requires SameBytes(j.mem, match0, ip0, filledIp - ip0 + MINMATCH) && TableOk(j, table, j.Index(filledIp) + 1)
    requires Budget(j, dst, d, olimit, lim) && table as object != dst
    requires HalfDone(j, dst, token0, op0, ss0, anchor0, ip0, lastStart0)
    requires d.LimitedOutput? ==> op0 + 2 <= olimit
    requires d.FillOutput? ==> op0 + 11 <= olimit
    requires acc >= 1 && goal.fill == d.FillOutput? && goal.olimit == olimit
    requires Tracks(goal, j, token0, anchor0, ss0, Chain(j, table[..], anchor0, ip0, match0, acc))
    modifies table, dst
    ensures UntouchedFrom(dst, lim) && TableOk(j, table, j.Index(j.iend))
    ensures step.Overflow? ==> d.LimitedOutput? && olimit < CompressBound(j.iend - j.source) && goal.ss != [] && goal.size + 6 > olimit
    ensures !step.Overflow? ==> ip0 + MINMATCH <= anchor && ss != [] && Progress(j, dst, op, ss, anchor, lastStart, d, olimit)
    ensures step.Fits? ==> anchor < j.Mflimit1() && TableOk(j, table, j.Index(anchor) + 1)
    ensures step.ToLastLiterals? ==> Tracks(goal, j, op, anchor, ss, Parse([], table[..]))
    ensures step.Fits? ==> Tracks(goal, j, op, anchor, ss, Rounds(j, table[..], anchor, anchor + 1, acc))
  {
    hide EncodeAll, Encode, EncodeRun, Placed, ApplyAll, AllEncodable, CopyMatch, Ext, HalfDone, Tracks, Chain, After, Rounds;
    lastStart := ip0;
    var ip;
    step, op, ip, ss := NextMatch(j, table, dst, d, olimit, anchor0, ip0, match0, filledIp, token0, op0, filledIp,
                                  ss0, lastStart0, lim, goal, acc);
    anchor := ip;
    while step.Fits?
      invariant step.Overflow? ==>
                  d.LimitedOutput? && olimit < CompressBound(j.iend - j.source) && goal.ss != [] && goal.size + 6 > olimit
      invariant !step.ToLastLiterals? && ip == anchor
      invariant step.Fits? ==> ip0 + MINMATCH <= anchor && ss != [] && Progress(j, dst, op, ss, anchor, lastStart, d, olimit)
      invariant step.Fits? ==> TableOk(j, table, j.Index(anchor))
      invariant step.Fits? ==> anchor <= j.Matchlimit() && Tracks(goal, j, op, anchor, ss, After(j, table[..], anchor, acc))
      invariant UntouchedFrom(dst, lim) && TableOk(j, table, j.Index(j.iend))
      decreases step.Fits?, j.iend - anchor
    {
      if ip >= j.Mflimit1() {
        AfterLast(j, table[..], anchor, acc);
        return ToLastLiterals, op, anchor, ss, lastStart;
      }
      var found, match_ := TestNext(j, table, ip, acc);
      TableWeaken(j, table, j.Index(ip) + 1, j.Index(j.iend));
      if !found { return; }
      ghost var ss1, lastStart1 := ss, lastStart;
      lastStart := ip;
      step, op, ip, ss := MatchAtOnce(j, table, dst, d, olimit, anchor, match_, op, ss1, lastStart1, lim, goal, acc);
      if step.ToLastLiterals? {
        ss, lastStart := ss1, lastStart1;
        return;
      }
      anchor := ip;
    }
  }

  lemma AfterLast(j: Job, t: seq<nat>, e: nat, acc: nat)
    requires Room(j, t) && j.source + MINMATCH <= e <= j.Matchlimit() && acc >= 1 && e >= j.Mflimit1()
    ensures After(j, t, e, acc) == Parse([], t)
  {
  }

  /** A match right behind the last: its token holds no literals (lz/lz4.c:1232-1271). */
  method MatchAtOnce(j: Job, table: array<nat>, dst: array<byte>, d: Directive, olimit: int, anchor: nat, match_: nat,
                     token: nat, ghost ss: seq<Sequence>, ghost lastStart: nat, ghost lim: nat, ghost goal: Goal, ghost acc: nat)
    returns (step: Step, op: nat, ip: nat, ghost ss': seq<Sequence>)
    requires j.Legal() && j.source <= anchor < j.Mflimit1() && j.lowLimit <= match_ < anchor && anchor - match_ <= DISTANCE_MAX
    requires Same4(j.mem, match_, anchor) && TableOk(j, table, j.Index(anchor) + 1)
    requires Budget(j, dst, d, olimit, lim) && table as object != dst
    requires ss != [] && Progress(j, dst, token, ss, anchor, lastStart, d, olimit)
    requires acc >= 1 && goal.fill == d.FillOutput? && goal.olimit == olimit
    requires Tracks(goal, j, token, anchor, ss, Chain(j, table[..], anchor, anchor, match_, acc))
    modifies table, dst
    ensures UntouchedFrom(dst, lim) && TableOk(j, table, j.Index(j.iend))
    ensures step.Overflow? ==> d.LimitedOutput? && olimit < CompressBound(j.iend - j.source) && goal.ss != [] && goal.size + 6 > olimit
    ensures step.ToLastLiterals? ==>
              && op == token && Progress(j, dst, op, ss, anchor, lastStart, d, olimit)
              && Tracks(goal, j, op, anchor, ss, Parse([], table[..]))
    ensures step.Fits? ==>
              && anchor + MINMATCH <= ip <= j.Matchlimit() && TableOk(j, table, j.Index(ip))
              && ss' != [] && Progress(j, dst, op, ss', ip, anchor, d, olimit)
              && Tracks(goal, j, op, ip, ss', After(j, table[..], ip, acc))
  {
    hide EncodeAll, Encode, EncodeRun, Placed, ApplyAll, AllEncodable, CopyMatch, Ext, HalfDone, Tracks, Chain, After;
    dst[token] := 0;
    SameWord(j.mem, match_, anchor, MINMATCH);
    NoLiterals(j, dst, token, ss, anchor, lastStart);
    step, op, ip, ss' := NextMatch(j, table, dst, d, olimit, anchor, anchor, match_, anchor, token, token + 1, anchor,
                                   ss, lastStart, lim, goal, acc);
  }

  /** The search of a round, with its catch-up. */
  method Search(j: Job, table: array<nat>, anchor: nat, ip: nat, acceleration: nat)
    returns (found: bool, ip1: nat, match_: nat, filledIp: nat)
    requires j.Legal() && j.source <= anchor <= ip <= j.Mflimit1() && j.source < ip && acceleration >= 1
    requires TableOk(j, table, j.Index(ip)) && MFLIMIT <= j.iend
    modifies table
    ensures TableOk(j, table, j.Index(j.iend)) && Room(j, old(table[..])) && Room(j, table[..])
    ensures found ==>
              && anchor <= ip1 <= filledIp <= j.iend - MFLIMIT && ip <= filledIp && j.lowLimit <= match_ < ip1
              && ip1 - match_ <= DISTANCE_MAX && SameBytes(j.mem, match_, ip1, filledIp - ip1 + MINMATCH)
              && TableOk(j, table, j.Index(filledIp) + 1)
    ensures Rounds(j, old(table[..]), anchor, ip, acceleration) ==
              if found then Chain(j, table[..], anchor, ip1, match_, acceleration) else Parse([], table[..])
  {
    hide Rounds, Chain, Probe, Back;
    ghost var t := table[..];
    found, ip1, match_ := FindMatch(j, table, ip, j.Slot(ip), acceleration);
    filledIp := ip1;
    if !found {
      RoundsNone(j, t, anchor, ip, acceleration);
      return;
    }
    RoundsFound(j, t, anchor, ip, acceleration);
    ghost var m := match_;
    TableWeaken(j, table, j.Index(filledIp) + 1, j.Index(j.iend));
    ip1, match_ := CatchUp(j, ip1, match_, anchor);
    BackIs(j.mem, m, filledIp, anchor, j.lowLimit, filledIp - ip1);
  }

  /** One round of the main loop (lz/lz4.c:973-1273): search, literals, matches. */
  method MainLoopRound(j: Job, table: array<nat>, dst: array<byte>, d: Directive, olimit: int, acceleration: nat,
                       ip: nat, anchor0: nat, op0: nat, ghost ss0: seq<Sequence>, ghost lastStart0: nat, ghost lim: nat,
                       ghost goal: Goal)
    returns (step: Step, op: nat, anchor: nat, ghost ss: seq<Sequence>, ghost lastStart: nat)
    requires j.Legal() && anchor0 <= ip <= j.Mflimit1() && j.source < ip && acceleration >= 1
    requires TableOk(j, table, j.Index(ip)) && Budget(j, dst, d, olimit, lim) && table as object != dst
    requires Progress(j, dst, op0, ss0, anchor0, lastStart0, d, olimit) && MFLIMIT <= j.iend
    requires goal.fill == d.FillOutput? && goal.olimit == olimit
    requires Tracks(goal, j, op0, anchor0, ss0, Rounds(j, table[..], anchor0, ip, acceleration))
    modifies table, dst
    ensures UntouchedFrom(dst, lim) && TableOk(j, table, j.Index(j.iend))
    ensures step.Overflow? ==> d.LimitedOutput? && olimit < CompressBound(j.iend - j.source) && goal.ss != [] && goal.size + 6 > olimit
    ensures !step.Overflow? ==> Progress(j, dst, op, ss, anchor, lastStart, d, olimit)
    ensures step.Fits? ==> anchor0 < anchor < j.Mflimit1() && TableOk(j, table, j.Index(anchor) + 1)
    ensures step.ToLastLiterals? ==> Tracks(goal, j, op, anchor, ss, Parse([], table[..]))
    ensures step.Fits? ==> Tracks(goal, j, op, anchor, ss, Rounds(j, table[..], anchor, anchor + 1, acceleration))
  {
    hide EncodeAll, Encode, EncodeRun, Placed, ApplyAll, AllEncodable, CopyMatch, Ext, HalfDone, EntryOk, Tracks, Chain, Rounds,
         Probe;
    op, anchor, ss, lastStart := op0, anchor0, ss0, lastStart0;
    var found, ip1, match_, filledIp := Search(j, table, anchor, ip, acceleration);
    if !found { return ToLastLiterals, op, anchor, ss, lastStart; }
    var op1;
    step, op1 := Literals(j, dst, d, olimit, anchor, ip1, op, ss, lastStart, lim);
    if !step.Fits? {
      LiteralsTracked(goal, j, op, anchor, ip1, match_, ss, table[..], acceleration, step.Overflow?);
      return;
    }
    step, op, anchor, ss, lastStart :=
      MatchChain(j, table, dst, d, olimit, anchor, ip1, match_, filledIp, op, op1, ss, lastStart, lim, goal, acceleration);
  }

  lemma RoundsNone(j: Job, t: seq<nat>, anchor: nat, ip: nat, acc: nat)
    requires Room(j, t) && j.source <= anchor <= ip <= j.Mflimit1() && j.source < ip && acc >= 1
    requires Probe(j, t, ip, 1, acc * SKIP_TRIGGER).NotFound?
    ensures Rounds(j, t, anchor, ip, acc) == Parse([], Probe(j, t, ip, 1, acc * SKIP_TRIGGER).table)
  {
    hide Probe;
  }

  lemma RoundsFound(j: Job, t: seq<nat>, anchor: nat, ip: nat, acc: nat)
    requires Room(j, t) && j.source <= anchor <= ip <= j.Mflimit1() && j.source < ip && acc >= 1
    requires var r := Probe(j, t, ip, 1, acc * SKIP_TRIGGER); r.Found? && r.match_ >= j.lowLimit
    ensures var r := Probe(j, t, ip, 1, acc * SKIP_TRIGGER);
            var n := Back(j.mem, r.match_, r.ip, anchor, j.lowLimit);
            Rounds(j, t, anchor, ip, acc) == Chain(j, r.table, anchor, r.ip - n, r.match_ - n, acc)
  {
    hide Probe, Chain, Back;
  }

  /** The literals of the next sequence do not fit. */
  lemma LiteralsTracked(goal: Goal, j: Job, op: nat, anchor: nat, ip: nat, m: nat, ss: seq<Sequence>, t: seq<nat>, acc: nat,
                        over: bool)
    requires Room(j, t) && j.source <= anchor <= ip && m < ip && ip + MFLIMIT <= j.iend && acc >= 1
    requires Tracks(goal, j, op, anchor, ss, Chain(j, t, anchor, ip, m, acc)) && goal.fill == !over
    requires var n := ip - anchor;
             if over then op + 9 + n + n / 255 > goal.olimit else op + 12 + n + (n + 240) / 255 > goal.olimit
    ensures if over then goal.ss != [] && goal.size + 6 > goal.olimit else Tracks(goal, j, op, anchor, ss, Parse([], t))
  {
    hide Tracks, After, Match;
    var s := Match(j, anchor, ip, m);
    var rest := After(j, t, ip + s.mlen, acc);
    if over {
      TracksOver(goal, j, op, anchor, ss, s, rest);
    } else {
      TracksStop(goal, j, op, anchor, ss, s, rest, Parse([], t));
    }
  }

  /** The bytes are a block of these sequences and of the literals behind them. */
  ghost predicate IsOutput(j: Job, bytes: seq<byte>, consumed: nat, ss: seq<Sequence>) {
    && AllEncodable(ss) && Span(ss) <= consumed <= j.iend - j.source && j.iend <= |j.mem|
    && bytes == EncodeAll(ss) + EncodeRun(j.mem[j.source + Span(ss)..j.source + consumed], 0)
  }

  /** The main loop, from the second byte of the source on (lz/lz4.c:973-1273). */
  method MainLoop(j: Job, table: array<nat>, dst: array<byte>, d: Directive, olimit: int, acceleration: nat, ghost lim: nat,
                  ghost goal: Goal)
    returns (overflow: bool, op: nat, anchor: nat, ghost ss: seq<Sequence>, ghost lastStart: nat)
    requires j.Legal() && j.iend - j.source >= MFLIMIT + 1 && acceleration >= 1
    requires TableOk(j, table, j.startIndex + 1) && Budget(j, dst, d, olimit, lim) && table as object != dst
    requires goal.fill == d.FillOutput? && goal.olimit == olimit
    requires Tracks(goal, j, 0, j.source, [], Rounds(j, table[..], j.source, j.source + 1, acceleration))
    modifies table, dst
    ensures UntouchedFrom(dst, lim) && TableOk(j, table, j.Index(j.iend))
    ensures overflow ==> d.LimitedOutput? && olimit < CompressBound(j.iend - j.source) && goal.ss != [] && goal.size + 6 > olimit
    ensures !overflow ==>
              && Progress(j, dst, op, ss, anchor, lastStart, d, olimit)
              && Tracks(goal, j, op, anchor, ss, Parse([], table[..]))
  {
    hide EncodeAll, Encode, EncodeRun, Placed, ApplyAll, AllEncodable, CopyMatch, Ext, HalfDone, EntryOk, Tracks, Rounds;
    op, anchor, ss, lastStart := 0, j.source, [], 0;
    Start(j, dst, d, olimit);
    var ip: nat := j.source + 1;
    while true
      invariant j.source <= anchor <= ip <= j.Mflimit1() && j.source < ip && TableOk(j, table, j.Index(ip))
      invariant Progress(j, dst, op, ss, anchor, lastStart, d, olimit)
      invariant Tracks(goal, j, op, anchor, ss, Rounds(j, table[..], anchor, ip, acceleration))
      invariant UntouchedFrom(dst, lim)
      decreases j.iend - anchor
    {
      var step;
      step, op, anchor, ss, lastStart :=
        MainLoopRound(j, table, dst, d, olimit, acceleration, ip, anchor, op, ss, lastStart, lim, goal);
      if !step.Fits? { return step.Overflow?, op, anchor, ss, lastStart; }
      ip := anchor + 1;
    }
  }

  /** Everything but the last literals; a source of less than 13 bytes has nothing else. */
  method EmitSequences(j: Job, table: array<nat>, dst: array<byte>, d: Directive, olimit: int, acceleration: nat, ghost lim: nat,
                   ghost goal: Goal)
    returns (overflow: bool, op: nat, anchor: nat, ghost ss: seq<Sequence>, ghost lastStart: nat)
    requires j.Legal() && acceleration >= 1
    requires TableOk(j, table, j.startIndex + 1) && Budget(j, dst, d, olimit, lim) && table as object != dst
    requires goal.fill == d.FillOutput? && goal.olimit == olimit
    requires Tracks(goal, j, 0, j.source, [], Greedy(j, table[..], acceleration))
    modifies table, dst
    ensures UntouchedFrom(dst, lim) && TableOk(j, table, j.Index(j.iend))
    ensures overflow ==> d.LimitedOutput? && olimit < CompressBound(j.iend - j.source) && goal.ss != [] && goal.size + 6 > olimit
    ensures !overflow ==>
              && Progress(j, dst, op, ss, anchor, lastStart, d, olimit)
              && Tracks(goal, j, op, anchor, ss, Parse([], table[..]))
  {
    hide EncodeAll, Encode, EncodeRun, Placed, ApplyAll, AllEncodable, CopyMatch, Ext, HalfDone, EntryOk, Tracks, Rounds;
    TableWeaken(j, table, j.startIndex + 1, j.Index(j.iend));
    if j.iend - j.source < MFLIMIT + 1 {
      Start(j, dst, d, olimit);
      return false, 0, j.source, [], 0;
    }
    PutIndex(j, table, j.source, j.Slot(j.source), j.startIndex + 1);
    overflow, op, anchor, ss, lastStart := MainLoop(j, table, dst, d, olimit, acceleration, lim, goal);
  }

  lemma ProgressOut(j: Job, dst: array<byte>, op: nat, ss: seq<Sequence>, anchor: nat, lastStart: nat, d: Directive, olimit: int)
    requires Progress(j, dst, op, ss, anchor, lastStart, d, olimit)
    ensures AllEncodable(ss) && op == |EncodeAll(ss)| && (d.FillOutput? && olimit >= 1 ==> op < olimit)
  {
    hide EncodeAll, Placed, ApplyAll, AllEncodable;
    assert |dst[..op]| == op;
  }

  /** The block compressor. What it produces is a block of the consumed part of the source, for
      the sequences that the greedy search finds. It gives up exactly when that block is longer
      than a limited output; to fill an output it keeps as many sequences and literals as
      fit. */
  method CompressBlock(j: Job, table: array<nat>, dst: array<byte>, d: Directive, olimit: int, acceleration: nat,
                       ghost lim: nat)
    returns (result: nat, consumed: nat)
    requires j.Legal() && TableOk(j, table, j.startIndex + 1) && acceleration >= 1
    requires Budget(j, dst, d, olimit, lim) && table as object != dst && (d.FillOutput? ==> olimit >= 1)
    modifies table, dst
    ensures UntouchedFrom(dst, lim) && TableOk(j, table, j.Index(j.iend))
    ensures result == 0 ==> d.LimitedOutput? && olimit < CompressBound(j.iend - j.source)
    ensures result <= dst.Length && consumed <= j.iend - j.source && (!d.FillOutput? ==> consumed == j.iend - j.source)
    ensures result > 0 ==>
              && result <= lim && (d.NotLimited? ==> result <= CompressBound(j.iend - j.source))
              && IsBlock(dst[..result], j.mem[..j.source], j.mem[j.source..j.source + consumed], j.lowLimit)
    ensures GreedyBlock(j, old(table[..]), acceleration, d, olimit, result, consumed, dst, table)
  {
    hide EncodeAll, Encode, EncodeRun, Placed, ApplyAll, AllEncodable, CopyMatch, Ext, HalfDone, IsBlock, EntryOk, Tracks, Rounds,
         GoalOf, EndsAs, Produces, Greedy, Progress, Budget, Tracks;
    ghost var t := table[..];
    ghost var parse := Greedy(j, t, acceleration);
    ghost var goal := GoalOf(parse, d.FillOutput?, olimit);
    GoalFacts(parse, d.FillOutput?, olimit);
    TracksStart(j, parse, d.FillOutput?, olimit);
    consumed := j.iend - j.source;
    var overflow, op, anchor;
    ghost var ss, lastStart;
    overflow, op, anchor, ss, lastStart := EmitSequences(j, table, dst, d, olimit, acceleration, lim, goal);
    if overflow {
      GreedySpan(j, t, acceleration);
      ProducesNone(j, parse, d, olimit, consumed, dst, table);
      return 0, consumed;
    }
    TracksEnd(goal, j, op, anchor, ss, Parse([], table[..]));
    ProgressOut(j, dst, op, ss, anchor, lastStart, d, olimit);
    result, consumed := LastLiterals(j, dst, d, olimit, anchor, op, ss, lastStart, lim);
    ProducesEnd(j, parse, d, olimit, result, consumed, dst, table, ss, anchor, op);
  }

  /** What a call produces for the greedy sequences of `parse`. */
  ghost predicate Produces(j: Job, parse: Parse, d: Directive, olimit: int, result: nat, consumed: nat, dst: array<byte>,
                           table: array<nat>)
    reads dst, table
  {
    && result <= dst.Length
    && if d.FillOutput? then
         var ss := Filled(parse.ss, 0, olimit);
         && result > 0 && IsOutput(j, dst[..result], consumed, ss)
         && EndsAs(j, d, olimit, j.source + Span(ss), |EncodeAll(ss)|, result, consumed)
       else
         && result == (if d.LimitedOutput? && BlockSize(j, parse.ss) > olimit then 0 else BlockSize(j, parse.ss))
         && (result > 0 ==> IsOutput(j, dst[..result], consumed, parse.ss) && table[..] == parse.table)
  }

  /** The same for the table that the call finds. */
  ghost predicate GreedyBlock(j: Job, t: seq<nat>, acceleration: nat, d: Directive, olimit: int, result: nat, consumed: nat,
                              dst: array<byte>, table: array<nat>)
    reads dst, table
  {
    && |t| >= j.TableSize() && j.lowLimit <= j.source <= j.iend <= |j.mem| && acceleration >= 1
    && Produces(j, Greedy(j, t, acceleration), d, olimit, result, consumed, dst, table)
  }

  lemma GoalFacts(parse: Parse, fill: bool, olimit: int)
    ensures var g := GoalOf(parse, fill, olimit);
            && g.fill == fill && g.olimit == olimit && g.table == parse.table && g.size == Size(parse.ss)
            && g.ss == if fill then Filled(parse.ss, 0, olimit) else parse.ss
  {
  }

  /** A target of three bytes more than the greedy block takes is filled with that block. */
  lemma FillsAll(j: Job, t: seq<nat>, acceleration: nat, olimit: int, result: nat, consumed: nat, dst: array<byte>,
                 table: array<nat>)
    requires GreedyBlock(j, t, acceleration, FillOutput, olimit, result, consumed, dst, table)
    requires BlockSize(j, Greedy(j, t, acceleration).ss) + 3 <= olimit
    ensures result == BlockSize(j, Greedy(j, t, acceleration).ss) && consumed == j.iend - j.source
  {
    hide Greedy, Filled, Size, Span, EncodeAll, EncodeRun, AllEncodable;
    var ss := Greedy(j, t, acceleration).ss;
    GreedySpan(j, t, acceleration);
    if ss != [] { FilledAll(ss, 0, olimit); } else { FilledNone(olimit); }
    SizeIs(ss);
  }

  lemma FilledNone(olimit: int)
    ensures Filled([], 0, olimit) == []
  {
  }

  /** A sequence passed the budget: then so does the block. */
  lemma ProducesNone(j: Job, parse: Parse, d: Directive, olimit: int, consumed: nat, dst: array<byte>, table: array<nat>)
    requires d.LimitedOutput? && parse.ss != [] && Size(parse.ss) + 6 > olimit
    requires Span(parse.ss) + LASTLITERALS <= j.iend - j.source
    ensures Produces(j, parse, d, olimit, 0, consumed, dst, table)
  {
    hide Filled, IsOutput, Span, Size;
  }

  lemma ProducesEnd(j: Job, parse: Parse, d: Directive, olimit: int, result: nat, consumed: nat, dst: array<byte>, table: array<nat>,
                    ss: seq<Sequence>, anchor: nat, op: nat)
    requires AllEncodable(ss) && op == |EncodeAll(ss)| && anchor == j.source + Span(ss) && j.iend <= |j.mem|
    requires ss == (if d.FillOutput? then Filled(parse.ss, 0, olimit) else parse.ss)
    requires !d.FillOutput? ==> table[..] == parse.table
    requires EndsAs(j, d, olimit, anchor, op, result, consumed) && result <= dst.Length
    requires result == 0 ==> d.LimitedOutput?
    requires result > 0 ==>
               && anchor <= j.source + consumed <= j.iend
               && dst[..result] == EncodeAll(ss) + EncodeRun(j.mem[anchor..j.source + consumed], 0)
    ensures Produces(j, parse, d, olimit, result, consumed, dst, table)
  {
    hide Filled, Span, Size, EncodeAll, EncodeRun, AllEncodable;
    SizeIs(ss);
  }

  lemma Start(j: Job, dst: array<byte>, d: Directive, olimit: int)
    requires j.Legal()
    ensures Progress(j, dst, 0, [], j.source, 0, d, olimit)
  {
    assert EncodeAll([]) == [];
  }
}
