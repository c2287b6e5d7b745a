/** The receive buffer of osc/OscSession.cpp: bytes arrive in chunks, and parsePkg takes
    complete packages out, skipping whatever lies between them. */
module OscReceiver {
  import Base64
  import opened Bytes
  import Lz4RoundTrip
  import opened Options
  import opened OscFlow
  import opened OscFraming
  import opened OscRejects

  // ---------------------------------------------------------------- the C library

  /** The length of the NUL-terminated string at `from`. */
  function StrLen(s: string, from: nat): (n: nat)
    requires from < |s| && s[|s| - 1] == NUL
    ensures from + n < |s| && s[from + n] == NUL
    ensures forall k :: from <= k < from + n ==> s[k] != NUL
    decreases |s| - from
  {
    if s[from] == NUL then 0 else StrLen(s, from + 1) + 1
  }

  predicate OccursIn(s: string, p: nat, needle: string) {
    p + |needle| <= |s| && s[p..p + |needle|] == needle
  }

  /** strstr(s + from, needle): the first occurrence inside the string at `from`, or -1. */
  function StrStr(s: string, from: nat, needle: string): (p: int)
    requires from < |s| && s[|s| - 1] == NUL && NUL !in needle && needle != []
    ensures -1 <= p && (p >= 0 ==> from <= p && p + |needle| <= from + StrLen(s, from) && OccursIn(s, p, needle))
    ensures forall q :: from <= q && q + |needle| <= from + StrLen(s, from) && OccursIn(s, q, needle) ==> 0 <= p <= q
    decreases |s| - from
  {
    if s[from] == NUL then -1
    else if |needle| <= StrLen(s, from) && OccursIn(s, from, needle) then from
    else StrStr(s, from + 1, needle)
  }

  // ---------------------------------------------------------------- the skip loop's reasons

  predicate ZeroFrom(s: string, len: nat) {
    forall k :: len <= k < |s| ==> s[k] == NUL
  }

  /** The buffer beyond what was received holds zeros, one at least. */
  predicate ZeroTail(s: string, len: nat) {
    len < |s| && ZeroFrom(s, len)
  }

  lemma StrLenInside(s: string, len: nat, from: nat)
    requires ZeroTail(s, len) && from <= len
    ensures from + StrLen(s, from) <= len
  {
    hide StrLen;
    assert s[len] == NUL;
  }

  /** An occurrence in what was received holds no NUL: it lies inside the string that
      starts before it, unless that string ends before it. */
  lemma OccursBeforeNul(s: string, len: nat, from: nat, q: nat)
    requires ZeroTail(s, len) && from <= q && q + PREFIX_LEN <= len
    ensures OccursIn(s, q, PREFIX) ==> q + PREFIX_LEN <= from + StrLen(s, from) || from + StrLen(s, from) < q
  {
    PrefixLetters();
    hide PREFIX, StrLen;
    var z := from + StrLen(s, from);
    if !OccursIn(s, q, PREFIX) { return; }
    forall k | q <= k < q + PREFIX_LEN ensures s[k] != NUL {
      assert s[k] == s[q..q + PREFIX_LEN][k - q];
    }
    assert s[z] == NUL;
  }

  /** What the skip loop drops (osc/OscSession.cpp:77-87) can never become a frame, if it
      ends with a NUL or leaves as many bytes as a prefix has. */
  lemma SkipReads(s: string, len: nat, from: nat, advance: nat)
    requires ZeroTail(s, len) && from <= len && StrStr(s, from, PREFIX) < 0
    requires advance <= StrLen(s, from) + 1 && from + advance <= len
    requires from + advance + PREFIX_LEN <= len || from + StrLen(s, from) < len
    ensures Reads(s[from..len], [], s[from + advance..len])
  {
    PrefixLetters();
    hide PREFIX, StrLen, StrStr, OccursAt, Parse;
    var b, z := s[from..len], from + StrLen(s, from);
    forall more, q | 0 <= q < advance ensures !OccursAt(b + more, q) {
      if OccursAt(b + more, q) {
        if from + q + PREFIX_LEN <= len {
          OccursMore(b, more, q);
          OccursInView(s, len, from, q);
          OccursBeforeNul(s, len, from, from + q);
        } else {
          OccursLetter(b + more, q, z - from - q);
        }
      }
    }
    ReadsNothing(b, advance);
    SliceOfPart(s, from, len, advance);
  }

  /** A skip from index 0 changes nothing of what the loop keeps in the end. */
  lemma SkipKeeps(s: string, len: nat, advance: nat)
    requires ZeroTail(s, len) && len > PREFIX_LEN && StrStr(s, 0, PREFIX) < 0
    requires advance == if StrLen(s, 0) + 1 > len - PREFIX_LEN then len - PREFIX_LEN else StrLen(s, 0) + 1
    ensures Kept(s[..len]) == Kept(s[advance..len])
  {
    PrefixLetters();
    hide PREFIX, StrLen, StrStr, OccursAt, Parse, AfterNul, FindPrefix;
    var v := s[0..len];
    assert v == s[..len];
    var p := FindPrefix(v, 0);
    if p < |v| {
      PrefixFits(v, p);
      OccursInView(s, len, 0, p);
      OccursBeforeNul(s, len, 0, p);
      NulBefore(v, p, StrLen(s, 0));
    }
    SliceOfPart(s, 0, len, advance);
    KeptDrop(v, advance);
  }

  lemma NulBefore(v: string, p: nat, z: nat)
    requires z < p <= |v| && v[z] == NUL
    ensures AfterNul(v, p) > z
  {
  }

  /** Dropping bytes before the place from which the rest is kept. */
  lemma KeptDrop(v: string, k: nat)
    requires k <= |v| - |Kept(v)| && (FindPrefix(v, 0) == |v| ==> k + PREFIX_LEN <= |v|)
    ensures Kept(v[k..]) == Kept(v)
  {
    hide *;
    var p := FindPrefix(v, 0);
    KeptIs(v, p);
    if p == |v| { KeptDropNone(v, k); } else { KeptDropFrame(v, k, p); }
  }

  lemma KeptDropNone(v: string, k: nat)
    requires FindPrefix(v, 0) == |v| && k + PREFIX_LEN <= |v|
    ensures Kept(v[k..]) == Kept(v)
  {
    hide *;
    FindDrop(v, k);
    KeptIs(v, |v|);
    KeptIs(v[k..], |v| - k);
    DropEnding(v, k);
  }

  lemma KeptDropFrame(v: string, k: nat, p: nat)
    requires p == FindPrefix(v, 0) < |v| && k <= AfterNul(v, p)
    ensures Kept(v[k..]) == Kept(v)
  {
    hide *;
    FindDrop(v, k);
    KeptIs(v, p);
    KeptIs(v[k..], p - k);
    AfterNulDrop(v, p, k);
    DropSlices(v, k, AfterNul(v, p));
  }

  lemma AfterNulDrop(v: string, p: nat, k: nat)
    requires p <= |v| && k <= AfterNul(v, p)
    ensures k <= p && AfterNul(v[k..], p - k) == AfterNul(v, p) - k
  {
    hide AfterNul;
    AfterNulIs(v[k..], p - k, AfterNul(v, p) - k);
  }

  lemma KeptIs(v: string, p: nat)
    requires p == FindPrefix(v, 0)
    ensures Kept(v) == if p == |v| then Ending(v) else v[AfterNul(v, p)..]
    ensures p < |v| ==> AfterNul(v, p) == |v| - |Kept(v)|
  {
    hide OccursAt, AfterNul, FindPrefix;
  }

  lemma DropEnding(v: string, k: nat)
    requires k + PREFIX_LEN <= |v|
    ensures Ending(v[k..]) == Ending(v)
  {
    DropSlices(v, k, |v| - PREFIX_LEN);
  }

  lemma DropSlices(v: string, k: nat, z: nat)
    requires k <= z <= |v|
    ensures v[k..][z - k..] == v[z..]
  {
  }

  /** Bytes without a frame start may be dropped altogether if and only if they do not end
      in the beginning of one. */
  lemma DropAll(v: string)
    requires NoFrame(v)
    ensures Reads(v, [], []) <==> !EndsInPrefix(v)
  {
    hide Parse, NoFrame, OccursAt, EndsInPrefix;
    if EndsInPrefix(v) {
      var j := Beginning(v);
      var more := PREFIX[j..] + [BEL];
      CutFrame(v, j);
      CutEnd(j);
      assert [] + more == more;
      assert Parse(v + more) != [] + Parse([] + more);
    } else {
      forall more, q | 0 <= q < |v| ensures !OccursAt(v + more, q) { NoneAcross(v, more, q); }
      ReadsNothing(v, |v|);
      assert v[|v|..] == [];
    }
  }

  lemma Beginning(v: string) returns (j: nat)
    requires EndsInPrefix(v)
    ensures 1 <= j < PREFIX_LEN && j <= |v| && v[|v| - j..] == PREFIX[..j]
  {
    j :| 1 <= j < PREFIX_LEN && j <= |v| && v[|v| - j..] == PREFIX[..j];
  }

  lemma NoneAcross(v: string, more: string, q: nat)
    requires NoFrame(v) && !EndsInPrefix(v) && q < |v|
    ensures !OccursAt(v + more, q)
  {
    hide OccursAt, EndsInPrefix;
    if q + PREFIX_LEN <= |v| {
      OccursMore(v, more, q);
    } else if OccursAt(v + more, q) {
      CrossBegins(v, more, q);
    }
  }

  lemma CrossBegins(v: string, more: string, q: nat)
    requires OccursAt(v + more, q) && q < |v| < q + PREFIX_LEN
    ensures EndsInPrefix(v)
  {
    PrefixLetters();
    hide PREFIX, EndsInPrefix;
    var j := |v| - q;
    assert v[q..] == (v + more)[q..q + PREFIX_LEN][..j];
    CutAt(v, j);
  }

  lemma CutAt(v: string, j: nat)
    requires 1 <= j < PREFIX_LEN && j <= |v| && v[|v| - j..] == PREFIX[..j]
    ensures EndsInPrefix(v)
  {
  }

  /** The frame that begins at the end of `v` and goes on behind it. */
  lemma CutFrame(v: string, j: nat)
    requires NoFrame(v) && 1 <= j < PREFIX_LEN && j <= |v| && v[|v| - j..] == PREFIX[..j]
    ensures Parse(v + (PREFIX[j..] + [BEL])) == [""] + Parse([BEL])
  {
    PrefixLetters();
    EndLetters();
    var g := v[..|v| - j];
    CutJoin(v, j, g);
    NoFrameBefore(v, g);
    hide *;
    ParseAfter(g, PREFIX + "" + SUFFIX + []);
    ParseFrame("", []);
    assert SUFFIX + [] == [BEL];
  }

  lemma CutJoin(v: string, j: nat, g: string)
    requires 1 <= j < PREFIX_LEN && j <= |v| && v[|v| - j..] == PREFIX[..j] && g == v[..|v| - j]
    ensures v + (PREFIX[j..] + [BEL]) == g + (PREFIX + "" + SUFFIX + [])
    ensures PREFIX + "" + SUFFIX + [] != [] && (PREFIX + "" + SUFFIX + [])[0] == ESC && PlainText("")
  {
    PrefixLetters();
    EndLetters();
    hide PREFIX, SUFFIX;
    assert v == g + PREFIX[..j];
    assert PREFIX == PREFIX[..j] + PREFIX[j..];
    assert PREFIX + "" + SUFFIX + [] == PREFIX + [BEL];
  }

  lemma NoFrameBefore(v: string, g: string)
    requires NoFrame(v) && g <= v
    ensures NoFrame(g)
  {
    hide OccursAt;
    assert g + v[|g|..] == v;
    forall q | 0 <= q < |g| ensures !OccursAt(g, q) {
      if q + PREFIX_LEN <= |g| { OccursMore(g, v[|g|..], q); } else { ShortOccurs(g, q); }
    }
  }

  lemma ShortOccurs(g: string, q: nat)
    requires q + PREFIX_LEN > |g|
    ensures !OccursAt(g, q)
  {
  }

  /** What is left of that frame is none. */
  lemma CutEnd(j: nat)
    requires 1 <= j < PREFIX_LEN
    ensures Parse(PREFIX[j..] + [BEL]) == []
  {
    PrefixLetters();
    hide PREFIX;
    NoEscape(PREFIX[j..] + [BEL]);
    NoParse(PREFIX[j..] + [BEL]);
  }

  /** Every frame starts with ESC. */
  lemma NoEscape(s: string)
    requires ESC !in s
    ensures NoFrame(s)
  {
    PrefixLetters();
    hide PREFIX, OccursAt;
    forall q | 0 <= q < |s| ensures !OccursAt(s, q) {
      if OccursAt(s, q) { OccursLetter(s, q, 0); }
    }
  }

  /** A complete frame found by the two searches. */
  lemma FoundReads(s: string, len: nat, from: nat, p: nat, e: nat)
    requires ZeroTail(s, len) && from <= len
    requires StrStr(s, from, PREFIX) == p && p + PREFIX_LEN <= len && StrStr(s, p + PREFIX_LEN, SUFFIX) == e && e < len
    ensures Reads(s[from..len], [s[p + PREFIX_LEN..e]], s[e..len])
  {
    PrefixLetters();
    EndLetters();
    hide PREFIX, SUFFIX, StrLen, StrStr, OccursAt, Parse;
    var b := s[from..len];
    var text := p + PREFIX_LEN;
    forall q | 0 <= q < p - from ensures !OccursAt(b, q) {
      OccursInView(s, len, from, q);
      OccursBeforeNul(s, len, from, from + q);
    }
    OccursInView(s, len, from, p - from);
    FirstSuffix(s, text, e);
    ReadsFrame(b, p - from, e - from);
    ViewSlices(s, from, len, text, e);
  }

  /** The same, for what is left in the end. */
  lemma FoundRest(s: string, len: nat, from: nat, p: nat, e: nat)
    requires ZeroTail(s, len) && from <= len
    requires StrStr(s, from, PREFIX) == p && p + PREFIX_LEN <= len && StrStr(s, p + PREFIX_LEN, SUFFIX) == e && e < len
    ensures Rest(s[from..len]) == Rest(s[e..len])
  {
    PrefixLetters();
    EndLetters();
    hide PREFIX, SUFFIX, StrLen, StrStr, OccursAt, Rest, FindPrefix, EndOf, Kept;
    FoundFirst(s, len, from, p);
    FoundEnd(s, len, from, p + PREFIX_LEN, e);
    TakenRest(s, len, from, p, e);
  }

  lemma TakenRest(s: string, len: nat, from: nat, p: nat, e: nat)
    requires from <= p && p + PREFIX_LEN <= e < len <= |s| && FindPrefix(s[from..len], 0) == p - from
    requires EndOf(s[from..len], p + PREFIX_LEN - from) == e - from && s[from..len][e - from] == BEL
    ensures Rest(s[from..len]) == Rest(s[e..len])
  {
    hide *;
    RestComplete(s[from..len], p - from, e - from);
    SliceOfPart(s, from, len, e - from);
  }

  lemma FoundEnd(s: string, len: nat, from: nat, x: nat, e: nat)
    requires ZeroTail(s, len) && from <= x <= len && StrStr(s, x, SUFFIX) == e && e < len
    ensures x <= e && EndOf(s[from..len], x - from) == e - from && s[from..len][e - from] == BEL
  {
    EndLetters();
    hide SUFFIX, StrLen, StrStr, EndOf;
    FirstSuffix(s, x, e);
    var b := s[from..len];
    forall k | x - from <= k < e - from ensures b[k] != BEL && b[k] != NUL { assert b[k] == s[from + k]; }
    assert b[e - from] == s[e];
    EndIs(b, x - from, e - from);
  }

  /** strstr finds the first frame start of what was received. */
  lemma FoundFirst(s: string, len: nat, from: nat, p: nat)
    requires ZeroTail(s, len) && from <= len && StrStr(s, from, PREFIX) == p && p + PREFIX_LEN <= len
    ensures from <= p && FindPrefix(s[from..len], 0) == p - from
    ensures Kept(s[from..len]) == s[from..len]
  {
    PrefixLetters();
    hide PREFIX, StrLen, StrStr, OccursAt;
    var b := s[from..len];
    forall q | 0 <= q < p - from ensures !OccursAt(b, q) {
      OccursInView(s, len, from, q);
      OccursBeforeNul(s, len, from, from + q);
    }
    OccursInView(s, len, from, p - from);
    FindSkip(b, 0, p - from);
    FindHere(b, p - from);
    forall k | 0 <= k < p - from ensures b[k] != NUL { assert b[k] == s[from + k]; }
    AfterNulIs(b, p - from, 0);
    assert b[0..] == b;
  }

  /** A frame whose end is not there: all of it stays. */
  lemma UnfinishedRest(s: string, len: nat, from: nat, p: nat)
    requires ZeroTail(s, len) && from <= len
    requires StrStr(s, from, PREFIX) == p && p + PREFIX_LEN <= len && StrStr(s, p + PREFIX_LEN, SUFFIX) < 0
    ensures Rest(s[from..len]) == s[from..len]
  {
    PrefixLetters();
    hide PREFIX, SUFFIX, StrLen, StrStr, OccursAt, Rest, FindPrefix, EndOf, Kept;
    FoundFirst(s, len, from, p);
    NoSuffix(s, len, from, p + PREFIX_LEN - from);
    var b := s[from..len];
    var e := EndOf(b, p - from + PREFIX_LEN);
    assert e < |b| ==> b[e] == s[from + e];
    RestUnfinished(b, p - from, e);
    KeptFrame(b, p - from);
  }

  lemma ViewSlices(s: string, from: nat, len: nat, x: nat, y: nat)
    requires from <= x <= y <= len <= |s|
    ensures s[from..len][x - from..y - from] == s[x..y] && s[from..len][y - from..] == s[y..len]
  {
    var b := s[from..len];
    forall k | 0 <= k < y - x ensures b[x - from..y - from][k] == s[x..y][k] { assert b[x - from + k] == s[x + k]; }
    forall k | 0 <= k < len - y ensures b[y - from..][k] == s[y..len][k] { assert b[y - from + k] == s[y + k]; }
  }

  lemma OccursInView(s: string, len: nat, from: nat, q: nat)
    requires from <= len <= |s|
    ensures from + q + PREFIX_LEN <= len ==> (OccursAt(s[from..len], q) <==> OccursIn(s, from + q, PREFIX))
    ensures from + q + PREFIX_LEN > len ==> !OccursAt(s[from..len], q)
  {
    PrefixLetters();
    if from + q + PREFIX_LEN <= len {
      var v := s[from..len];
      var x, y := v[q..q + PREFIX_LEN], s[from + q..from + q + PREFIX_LEN];
      forall k | 0 <= k < PREFIX_LEN ensures x[k] == y[k] { assert x[k] == v[q + k] == s[from + q + k]; }
      assert x == y;
    }
  }

  lemma FirstSuffix(s: string, text: nat, e: nat)
    requires text < |s| && s[|s| - 1] == NUL && StrStr(s, text, SUFFIX) == e
    ensures e < |s| && s[e] == BEL && forall k :: text <= k < e ==> s[k] != BEL && s[k] != NUL
  {
    EndLetters();
    hide StrLen, StrStr;
    BelOccurs(s, e);
    forall k | text <= k < e ensures s[k] != BEL && s[k] != NUL { BelOccurs(s, k); }
  }

  lemma BelOccurs(s: string, k: nat)
    requires k < |s|
    ensures OccursIn(s, k, SUFFIX) <==> s[k] == BEL
  {
    EndLetters();
    assert s[k..k + 1] == [s[k]];
  }

  /** What a skip does, whatever its index: it overruns, loses the beginning of a frame, or
      drops nothing that could matter. */
  lemma Skipped(s: string, len: nat, from: nat, advance: nat)
    requires ZeroTail(s, len) && from <= len && len > PREFIX_LEN && StrStr(s, from, PREFIX) < 0
    requires from == 0 || from >= PREFIX_LEN
    requires advance == if StrLen(s, from) + 1 > len - PREFIX_LEN then len - PREFIX_LEN else StrLen(s, from) + 1
    ensures from + advance > len <==> from > PREFIX_LEN && from + StrLen(s, from) == len
    ensures var lost := from == PREFIX_LEN && from + StrLen(s, from) == len && EndsInPrefix(s[from..len]);
            && (from + advance <= len && !lost ==> Reads(s[from..len], [], s[from + advance..len]))
            && (lost ==> from + advance == len && !Reads(s[from..len], [], []))
    ensures from == 0 ==> advance <= len && Kept(s[advance..len]) == Kept(s[from..len])
  {
    PrefixLetters();
    hide PREFIX, StrStr, StrLen, Parse, Reads, Kept, EndsInPrefix;
    StrLenInside(s, len, from);
    if from == PREFIX_LEN && from + StrLen(s, from) == len {
      NoneInView(s, len, from);
      DropAll(s[from..len]);
      assert s[len..len] == [];
    } else if from + advance <= len {
      SkipReads(s, len, from, advance);
      if from == 0 {
        SkipKeeps(s, len, advance);
        assert s[0..len] == s[..len];
      }
    }
  }

  /** Neither a frame start nor a NUL. */
  ghost predicate NothingFrom(s: string, len: nat, from: nat)
    requires ZeroTail(s, len) && from <= len
  {
    StrStr(s, from, PREFIX) < 0 && from + StrLen(s, from) == len
  }

  lemma NulIs(s: string, len: nat, from: nat)
    requires ZeroTail(s, len) && from <= len
    ensures FirstNul(s[from..len]) == StrLen(s, from)
  {
    hide StrLen, FirstNul;
    var u, n := s[from..len], StrLen(s, from);
    StrLenInside(s, len, from);
    if n < |u| { assert u[n] == s[from + n]; }
    if FirstNul(u) < |u| { assert u[FirstNul(u)] == s[from + FirstNul(u)]; }
  }

  /** strstr finds a frame start if and only if one comes before the next NUL. */
  lemma AheadIs(s: string, len: nat, from: nat)
    requires ZeroTail(s, len) && from <= len
    ensures StrStr(s, from, PREFIX) >= 0 <==> PrefixAhead(s[from..len])
  {
    PrefixLetters();
    hide PREFIX, StrLen, StrStr, OccursAt, FindPrefix, FirstNul;
    var u, p := s[from..len], StrStr(s, from, PREFIX);
    NulIs(s, len, from);
    StrLenInside(s, len, from);
    if p >= 0 {
      FoundFirst(s, len, from, p);
    } else if FindPrefix(u, 0) < FirstNul(u) {
      var q := FindPrefix(u, 0);
      PrefixFits(u, q);
      OccursBeforeNul(s, len, from, from + q);
      OccursInView(s, len, from, q);
    }
  }

  /** What a skip from behind a rejected text leaves. */
  lemma SkipBehind(s: string, len: nat, from: nat, advance: nat)
    requires ZeroTail(s, len) && PREFIX_LEN <= from <= len && from + advance <= len
    requires advance == if StrLen(s, from) + 1 > len - PREFIX_LEN then len - PREFIX_LEN else StrLen(s, from) + 1
    ensures s[from + advance..len] == BehindNul(s[from..len])
  {
    hide StrLen, FirstNul;
    NulIs(s, len, from);
    StrLenInside(s, len, from);
    if StrLen(s, from) < len - from { SliceOfPart(s, from, len, advance); }
  }

  lemma NoneInView(s: string, len: nat, from: nat)
    requires ZeroTail(s, len) && from <= len && StrStr(s, from, PREFIX) < 0 && from + StrLen(s, from) == len
    ensures NoFrame(s[from..len])
  {
    PrefixLetters();
    hide PREFIX, StrStr, StrLen, OccursAt;
    forall q | 0 <= q < len - from ensures !OccursAt(s[from..len], q) {
      OccursInView(s, len, from, q);
      if from + q + PREFIX_LEN <= len { OccursBeforeNul(s, len, from, from + q); }
    }
  }

  lemma FoundAt(s: string, from: nat, p: nat)
    requires from < |s| && s[|s| - 1] == NUL && NUL !in PREFIX && StrStr(s, from, PREFIX) == p
    ensures from <= p && p + PREFIX_LEN <= |s| && s[p..p + PREFIX_LEN] == PREFIX
  {
    PrefixLetters();
    hide PREFIX, StrStr, StrLen;
  }

  /** No more than a prefix is left as it is, unless it is a frame start itself. */
  lemma RestTiny(v: string)
    requires |v| <= PREFIX_LEN
    ensures Rest(v) == v
  {
    hide AfterNul;
    KeptShort(v);
  }

  lemma NothingLeft(v: string)
    requires v == []
    ensures Parse(v) == [] && Rest(v) == v
  {
    ParseNone(v, 0);
    RestTiny(v);
  }

  lemma KeptShort(v: string)
    requires |v| <= PREFIX_LEN
    ensures Kept(v) == v
  {
    hide AfterNul;
    if FindPrefix(v, 0) < |v| {
      PrefixFits(v, FindPrefix(v, 0));
      AfterNulIs(v, 0, 0);
      assert v[0..] == v;
    }
  }

  /** Nothing more to take: no frame start, or one whose text goes on. */
  lemma NothingReads(s: string, len: nat, from: nat)
    requires ZeroTail(s, len) && from <= len
    requires len - from <= PREFIX_LEN
          || (var p := StrStr(s, from, PREFIX); p >= 0 && p + PREFIX_LEN <= len && StrStr(s, p + PREFIX_LEN, SUFFIX) < 0)
    ensures Parse(s[from..len]) == []
  {
    PrefixLetters();
    EndLetters();
    hide PREFIX, SUFFIX, StrLen, StrStr, OccursAt, Parse, FindPrefix, EndOf;
    var b := s[from..len];
    var p := FindPrefix(b, 0);
    if p < |b| {
      PrefixFits(b, p);
      if len - from > PREFIX_LEN {
        var p' := StrStr(s, from, PREFIX);
        OccursInView(s, len, from, p);
        OccursInView(s, len, from, p' - from);
        OccursBeforeNul(s, len, from, from + p);
        assert from + p == p';
        NoSuffix(s, len, from, p + PREFIX_LEN);
      }
      ParseNone(b, p);
    } else {
      ParseNone(b, p);
    }
  }

  lemma {:induction false} NoSuffix(s: string, len: nat, from: nat, x: nat)
    requires ZeroTail(s, len) && from + x <= len && StrStr(s, from + x, SUFFIX) < 0
    ensures var e := EndOf(s[from..len], x); e == len - from || s[from + e] == NUL
    decreases len - x
  {
    EndLetters();
    hide SUFFIX;
    if from + x < len && s[from + x] != NUL {
      BelOccurs(s, from + x);
      NoSuffix(s, len, from, x + 1);
    }
  }

  /** strstr finds where the text ends, if it ends with BEL. */
  lemma EndFound(s: string, len: nat, x: nat)
    requires ZeroTail(s, len) && x <= len
    ensures var p, e := StrStr(s, x, SUFFIX), EndOf(s[..len], x);
            if 0 <= p < len then e == p && s[e] == BEL else e == len || s[e] != BEL
  {
    EndLetters();
    SuffixInside(s, len, x);
    hide SUFFIX, StrLen, StrStr, EndOf;
    assert s[0..len] == s[..len];
    var p := StrStr(s, x, SUFFIX);
    if p >= 0 { FoundEnd(s, len, 0, x, p); } else { NoSuffix(s, len, 0, x); }
  }

  lemma NothingIs(s: string, len: nat, from: nat, u: string)
    requires ZeroTail(s, len) && from <= len && u == s[from..len]
    ensures NothingFrom(s, len, from) <==> !PrefixAhead(u) && FirstNul(u) == |u|
  {
    hide StrStr, StrLen, FindPrefix, FirstNul, ZeroFrom;
    AheadIs(s, len, from);
    NulIs(s, len, from);
  }

  // ---------------------------------------------------------------- what a round does

  /** The frame at `p` ends at `e`, or is not complete. */
  ghost predicate FrameEndAt(b: string, k: nat, p: nat, e: int)
    requires k <= |b|
  {
    var u := b[k..];
    && k <= p && p + PREFIX_LEN <= |b|
    && var x := EndOf(b, p + PREFIX_LEN);
       if e >= 0 then
         && e == x < |b| && b[e] == BEL && b[p..p + PREFIX_LEN] == PREFIX
         && Reads(u, [b[p + PREFIX_LEN..e]], b[e..]) && Rest(u) == Rest(b[e..])
       else (x == |b| || b[x] != BEL) && Parse(u) == [] && Rest(u) == u
  }

  lemma FindsEnd(s: string, len: nat, k: nat, p: nat)
    requires ZeroTail(s, len) && k <= len && StrStr(s, k, PREFIX) == p && p + PREFIX_LEN <= len
    ensures var e := StrStr(s, p + PREFIX_LEN, SUFFIX); FrameEndAt(s[..len], k, p, if e < len then e else -1)
  {
    hide PREFIX, StrStr, StrLen, Parse, Reads, Rest, EndOf;
    PrefixLetters();
    EndLetters();
    FoundAt(s, k, p);
    EndFound(s, len, p + PREFIX_LEN);
    Front(s, len, k, len);
    Front(s, len, p, p + PREFIX_LEN);
    var e := StrStr(s, p + PREFIX_LEN, SUFFIX);
    if 0 <= e < len {
      Front(s, len, p + PREFIX_LEN, e);
      FoundReads(s, len, k, p, e);
      FoundRest(s, len, k, p, e);
    } else {
      SuffixInside(s, len, p + PREFIX_LEN);
      NothingReads(s, len, k);
      UnfinishedRest(s, len, k, p);
    }
  }

  lemma Front(s: string, len: nat, x: nat, y: nat)
    requires x <= y <= len <= |s|
    ensures s[..len][x..y] == s[x..y] && s[..len][y..] == s[y..len] && s[..len][x..] == s[x..len]
  {
  }

  /** What a round does with the frame at `p`. */
  ghost predicate FrameDone(b0: string, k0: nat, p: nat, r: Round, text: string, b: string, k: nat)
    requires k0 <= |b0| && k <= |b|
  {
    var u, v := b0[k0..], b[k..];
    && k0 <= p && p + PREFIX_LEN <= |b0| && r != Lost && FromIndex(b0, k0, p) == Account(r, text, b, k)
    && (r == Taken ==> k == 0 && !Bad(text)) && (r == Refused ==> Bad(text))
    && if r == Unfinished then k == k0 && b == b0 && Parse(v) == [] && Rest(v) == v
       else Reads(u, [text], v) && Rest(u) == Rest(v)
  }

  lemma FrameUsed(b0: string, k0: nat, p: nat, e: int, r: Round, text: string, b: string, k: nat)
    requires k0 <= |b0| && k <= |b| && FrameEndAt(b0, k0, p, e)
    requires if e < 0 then r == Unfinished && b == b0 && k == k0
             else
               && p + PREFIX_LEN <= e <= |b0| && text == b0[p + PREFIX_LEN..e]
               && if Bad(text) then r == Refused && b == b0 && k == e else r == Taken && b == b0[e..] && k == 0
    ensures FrameDone(b0, k0, p, r, text, b, k)
  {
    hide Parse, Reads, Rest, EndOf, FromIndex, Account, Bad;
    Accounted(b0, k0, p, EndOf(b0, p + PREFIX_LEN), r, text, b, k);
    assert r == Taken ==> b[0..] == b;
  }

  /** What a round does. */
  ghost predicate RoundDone(b0: string, k0: nat, r: Round, text: string, b: string, k: nat, lost: bool)
    requires k0 <= |b0| && k <= |b|
  {
    var u, v := b0[k0..], b[k..];
    && r != Lost && Parsed(b0, k0) == Pass(Account(r, text, b, k), lost)
    && (!lost ==> Reads(u, if r == Unfinished then [] else [text], v))
    && (lost ==> r == Unfinished && v == [] && !Reads(u, [], []))
    && (r == Taken ==> k == 0 && !Bad(text)) && (r == Refused ==> Bad(text))
    && (r == Unfinished ==> Parse(v) == [] && (k0 == 0 ==> k == 0 && v == Rest(u)))
    && (k0 == 0 && r == Taken ==> Rest(v) == Rest(u))
  }

  /** The skip loop, and then the frame that it has found. */
  lemma RoundOf(b0: string, k0: nat, b1: string, k1: nat, p: nat, r: Round, text: string, b: string, k: nat)
    requires k0 <= |b0| && k1 <= |b1| && k <= |b| && FrameDone(b1, k1, p, r, text, b, k)
    requires Parsed(b0, k0) == Pass(FromIndex(b1, k1, p), false) && Reads(b0[k0..], [], b1[k1..])
    requires k0 == 0 ==> k1 == 0 && Rest(b1[k1..]) == Rest(b0[k0..])
    ensures RoundDone(b0, k0, r, text, b, k, false)
  {
    hide Parse, Reads, Rest, FromIndex, Account, Parsed, Bad;
    if r != Unfinished { ReadsTrans(b0[k0..], [], b1[k1..], [text], b[k..]); }
    assert [] + [text] == [text];
  }

  /** No frame start. */
  lemma RoundEnds(b0: string, k0: nat, b: string, lost: bool)
    requires k0 <= |b0| && |b| <= PREFIX_LEN && Parsed(b0, k0) == Pass(Leftover(b, 0, []), lost)
    requires if lost then b == [] && k0 != 0 && !Reads(b0[k0..], [], []) else Reads(b0[k0..], [], b)
    requires k0 == 0 ==> Rest(b) == Rest(b0[k0..])
    ensures RoundDone(b0, k0, Unfinished, "", b, 0, lost)
  {
    hide Reads, Parsed, Bad;
    assert b[0..] == b;
    RestTiny(b);
    RestWaits(b);
    hide *;
  }

  /** How parsePkg ends: no complete frame is left; a text was no package and RESET is
      posted; or the skip moved past the bytes received. */
  datatype Outcome = Waiting | Rejected | Overrun

  /** What parsePkg does, as long as it does not pass the end: the texts that it takes are
      packages but for `bad`, and nothing else that matters is dropped unless `lost`. */
  ghost predicate PkgDone(b0: string, k0: nat, r: Outcome, texts: seq<string>, bad: seq<string>, b: string, k: nat, lost: bool)
    requires k0 <= |b0| && k <= |b|
  {
    var u, v := b0[k0..], b[k..];
    && r != Overrun && AllPackages(texts) && Parsed(b0, k0) == Pass(Leftover(b, k, texts + bad), lost)
    && (!lost ==> Reads(u, texts + bad, v))
    && (lost ==> r == Waiting && texts == [] && v == [] && !Reads(u, [], v))
    && (r == Waiting ==> bad == [] && Parse(v) == [] && (k0 == 0 ==> k == 0 && v == Rest(u)))
    && (r == Rejected ==> |bad| == 1 && Bad(bad[0]))
  }

  /** The package that a round hands over. */
  function Handed(r: Round, text: string): (ps: seq<seq<byte>>) {
    if r == Taken && Payload(text).Some? then [Payload(text).value] else []
  }

  lemma HandedIs(r: Round, text: string)
    ensures Handed(r, text) == if r == Taken && !Bad(text) then [Payload(text).value] else []
  {
    hide Payload;
  }

  class ReceiveBuffer {
    const buffer: array<char>
    var len: nat
    var decodeIndex: nat
    /** Packages handed to their handlers, and RESET events posted. */
    var payloads: seq<seq<byte>>
    var resets: nat

    ghost predicate Bounded()
      reads this, buffer
    {
      && buffer.Length == BUFFER_SIZE && len < BUFFER_SIZE
      && ZeroTail(buffer[..], len) && decodeIndex <= len
    }

    /** The index is at the start of the buffer, or on the end of a frame that was rejected
        and is still in front of it. */
    ghost predicate Valid()
      reads this, buffer
    {
      Bounded() && (decodeIndex == 0 || (PREFIX_LEN <= decodeIndex < len && buffer[decodeIndex] == BEL))
    }

    /** The bytes received and not yet used. */
    ghost function View(): (v: string)
      requires Bounded()
      reads this, buffer
    {
      buffer[decodeIndex..len]
    }

    /** The bounds that the skip loop exceeds when it starts past a rejected text: no NUL
        and no frame start follows, and more than a prefix precedes. */
    ghost predicate SkipsPastEnd()
      requires Valid()
      reads this, buffer
    {
      decodeIndex > PREFIX_LEN && NothingAhead()
    }

    /** The skip loop finds neither a frame start nor a NUL. */
    ghost predicate NothingAhead()
      requires Bounded()
      reads this, buffer
    {
      NothingFrom(buffer[..], len, decodeIndex)
    }

    /** When the skip loop drops the beginning of the next frame: behind a rejected empty text,
        with nothing ahead but that beginning. */
    ghost predicate LosesStart()
      requires Valid()
      reads this, buffer
    {
      decodeIndex == PREFIX_LEN && NothingAhead() && EndsInPrefix(View())
    }

    constructor ()
      ensures Valid() && len == 0 && decodeIndex == 0 && payloads == [] && resets == 0 && fresh(buffer)
    {
      buffer := new char[BUFFER_SIZE](_ => NUL);
      len, decodeIndex, payloads, resets := 0, 0, [], 0;
    }

    /** memset(bufferM + bufferLenM, 0, ...). */
    method ZeroRest()
      requires buffer.Length == BUFFER_SIZE && len <= BUFFER_SIZE
      modifies buffer
      ensures buffer[..len] == old(buffer[..len]) && ZeroFrom(buffer[..], len)
    {
      for i := len to BUFFER_SIZE
        modifies buffer
        invariant forall k :: 0 <= k < len ==> buffer[k] == old(buffer[k])
        invariant forall k :: len <= k < i ==> buffer[k] == NUL
      {
        buffer[i] := NUL;
      }
    }

    /** eatBuffer (osc/OscSession.h:73-79). */
    method EatBuffer()
      requires Bounded()
      modifies this`len, this`decodeIndex, buffer
      ensures Valid() && decodeIndex == 0 && len == old(len) - old(decodeIndex) && View() == old(View())
    {
      hide StrStr, StrLen, Parse;
      ghost var view := View();
      len := len - decodeIndex;
      for i := 0 to len
        modifies buffer
        invariant forall k :: 0 <= k < i ==> buffer[k] == old(buffer[decodeIndex + k])
        invariant forall k :: i <= k < BUFFER_SIZE ==> buffer[k] == old(buffer[k])
      {
        buffer[i] := buffer[decodeIndex + i];
      }
      assert buffer[..len] == view;
      ZeroRest();
      decodeIndex := 0;
    }

    /** processNetworkInput (osc/OscSession.cpp:245-254) after a read that the guard of
        osc/OscSession.cpp:221 allows. */
    method Receive(str: string)
      requires Valid() && |str| <= READ_SIZE < BUFFER_SIZE - len
      modifies this`len, buffer
      ensures Valid() && View() == old(View()) + str && len == old(len) + |str|
      ensures buffer[..len] == old(buffer[..len]) + str
    {
      for i := 0 to |str|
        modifies buffer
        invariant forall k :: 0 <= k < len ==> buffer[k] == old(buffer[k])
        invariant forall k :: len <= k < len + i ==> buffer[k] == str[k - len]
        invariant forall k :: len + i <= k < BUFFER_SIZE ==> buffer[k] == NUL
      {
        buffer[len + i] := str[i];
      }
      len := len + |str|;
    }

    /** One skip (osc/OscSession.cpp:79-87): up to and with the next NUL, or all but the
        last bytes, in which a frame start may have begun. */
    method Skip() returns (overrun: bool)
      requires Valid() && len > PREFIX_LEN && StrStr(buffer[..], decodeIndex, PREFIX) < 0
      modifies this`len, this`decodeIndex, buffer
      ensures overrun <==> old(SkipsPastEnd())
      ensures len <= old(len) && (!overrun ==> Valid() && decodeIndex == 0 && len < old(len))
      ensures !overrun && !old(LosesStart()) ==> Reads(old(View()), [], View())
      ensures old(LosesStart()) ==> View() == [] && !Reads(old(View()), [], [])
      ensures !overrun && old(decodeIndex) == 0 ==> Kept(View()) == Kept(old(View()))
      ensures !overrun && old(decodeIndex) > 0 ==> View() == BehindNul(old(View()))
    {
      hide PREFIX, StrStr, StrLen, Parse, Reads, Kept, EndsInPrefix, BehindNul;
      ghost var s, from, view := buffer[..], decodeIndex, View();
      var advance := StrLen(buffer[..], decodeIndex) + 1;
      StrLenInside(buffer[..], len, decodeIndex);
      if advance > len - PREFIX_LEN { advance := len - PREFIX_LEN; }
      Skipped(s, len, from, advance);
      decodeIndex := decodeIndex + advance;
      if decodeIndex > len { return true; }
      if from > 0 { SkipBehind(s, len, from, advance); }
      EatBuffer();
      return false;
    }

    /** The skip loop (osc/OscSession.cpp:76-93): the next frame start, if any; what lies
        before it may be dropped. Only a frame start that is cut off by the end of what was
        received, behind a rejected empty text, is lost. */
    method FindFrame() returns (prefixPos: int, overrun: bool)
      requires Valid()
      modifies this`len, this`decodeIndex, buffer
      ensures overrun <==> old(SkipsPastEnd())
      ensures !overrun ==> Valid() && (old(decodeIndex) == 0 ==> decodeIndex == 0 && View() == Kept(old(View())))
      ensures !overrun ==>
                SkipLeaves(old(buffer[..len]), old(decodeIndex), buffer[..len], decodeIndex, prefixPos)
      ensures !overrun && !old(LosesStart()) ==> Reads(old(View()), [], View())
      ensures old(LosesStart()) ==> prefixPos < 0 && View() == [] && !Reads(old(View()), [], [])
      ensures len <= old(len) && (!overrun && prefixPos < 0 ==> len <= PREFIX_LEN)
      ensures !overrun && prefixPos >= 0 ==>
                StrStr(buffer[..], decodeIndex, PREFIX) == prefixPos && prefixPos + PREFIX_LEN <= len
    {
      PrefixLetters();
      ReadsNone(View());
      hide PREFIX, StrStr, StrLen, Parse, Reads, Kept, EndsInPrefix, BehindNul, FindPrefix, FirstNul, DropsTo, PrefixAhead,
           SkipLeaves;
      prefixPos, overrun := -1, false;
      ghost var skipped, b0, k0, u0, loses := false, buffer[..len], decodeIndex, View(), LosesStart();
      assert b0[k0..] == u0;
      DropsNothing(u0);
      while len > PREFIX_LEN
        invariant Valid() && !overrun && prefixPos < 0 && len <= old(len)
        invariant if skipped then decodeIndex == 0 && !old(SkipsPastEnd()) && (loses ==> len == 0)
                  else len == old(len) && decodeIndex == k0 && buffer[..] == old(buffer[..])
        invariant !loses ==> Reads(u0, [], View())
        invariant skipped && loses ==> !Reads(u0, [], [])
        invariant skipped || k0 == 0 ==> DropsTo(u0, k0, View())
        decreases len
      {
        prefixPos := StrStr(buffer[..], decodeIndex, PREFIX);
        StrLenInside(buffer[..], len, decodeIndex);
        AheadIs(buffer[..], len, decodeIndex);
        ghost var view := View();
        if prefixPos < 0 || prefixPos > len - PREFIX_LEN {
          overrun := Skip();
          if overrun { return; }
          if !loses { ReadsTrans(u0, [], view, [], View()); }
          DropsMore(u0, k0, view, skipped, View());
          skipped := true;
          continue;
        }
        FoundFirst(buffer[..], len, decodeIndex, prefixPos);
        assert buffer[..len][decodeIndex..] == view;
        LeavesFound(b0, k0, u0, buffer[..len], decodeIndex, view, prefixPos, skipped);
        return;
      }
      KeptShort(View());
      assert buffer[..len][decodeIndex..] == View();
      LeavesShort(b0, k0, u0, buffer[..len], decodeIndex, View(), prefixPos);
    }

    /** The end of the frame at `prefixPos` (osc/OscSession.cpp:95-98), if it is there. */
    method FindEnd(prefixPos: nat) returns (suffixPos: int)
      requires Valid() && StrStr(buffer[..], decodeIndex, PREFIX) == prefixPos && prefixPos + PREFIX_LEN <= len
      ensures FrameEndAt(buffer[..len], decodeIndex, prefixPos, suffixPos)
    {
      hide PREFIX, StrStr, StrLen, FrameEndAt;
      suffixPos := StrStr(buffer[..], prefixPos + PREFIX_LEN, SUFFIX);
      FindsEnd(buffer[..], len, decodeIndex, prefixPos);
      assert buffer[..][..len] == buffer[..len];
      if suffixPos < 0 || suffixPos >= len { return -1; }
    }

    /** One frame at `prefixPos` (osc/OscSession.cpp:95-125): wait for its end, or take its
        text; a text that is no package posts RESET and leaves the index on its end. */
    method TakeFrame(prefixPos: nat) returns (r: Round, ghost text: string)
      requires Valid() && StrStr(buffer[..], decodeIndex, PREFIX) == prefixPos && prefixPos + PREFIX_LEN <= len
      modifies this, buffer
      ensures Valid() && r != Lost && len <= old(len) && (r == Taken ==> len < old(len) && decodeIndex == 0)
      ensures FrameDone(old(buffer[..len]), old(decodeIndex), prefixPos, r, text, buffer[..len], decodeIndex)
      ensures resets == old(resets) + (if r == Refused then 1 else 0) && payloads == old(payloads) + Handed(r, text)
      ensures r == Refused ==> RejectedText(text)
    {
      hide PREFIX, StrStr, StrLen, Parse, Reads, Rest, Payload, ZeroTail, EndOf, Consume, FromIndex, Account, FrameDone, Bad,
           RejectedText;
      text := "";
      ghost var b, k := buffer[..len], decodeIndex;
      var suffixPos := FindEnd(prefixPos);
      if suffixPos < 0 {
        FrameUsed(b, k, prefixPos, suffixPos, Unfinished, text, b, k);
        return Unfinished, text;
      }
      r, text := UseText(prefixPos, suffixPos);
      FrameUsed(b, k, prefixPos, suffixPos, r, text, buffer[..len], decodeIndex);
    }

    /** The text between `prefixPos` and `suffixPos` (osc/OscSession.cpp:100-125). */
    method UseText(prefixPos: nat, suffixPos: nat) returns (r: Round, ghost text: string)
      requires Valid() && decodeIndex <= prefixPos && prefixPos + PREFIX_LEN <= suffixPos < len && buffer[suffixPos] == BEL
      requires buffer[..len][prefixPos..prefixPos + PREFIX_LEN] == PREFIX
      modifies this, buffer
      ensures Valid() && len <= old(len) && text == old(buffer[..len])[prefixPos + PREFIX_LEN..suffixPos]
      ensures r == if Bad(text) then Refused else Taken
      ensures r == Taken ==> decodeIndex == 0 && len < old(len) && buffer[..len] == old(buffer[..len])[suffixPos..]
      ensures r == Refused ==> decodeIndex == suffixPos && buffer[..len] == old(buffer[..len]) && RejectedText(text)
      ensures resets == old(resets) + (if r == Refused then 1 else 0) && payloads == old(payloads) + Handed(r, text)
    {
      hide PREFIX, StrStr, StrLen, Parse, Reads, Rest, Payload, ZeroTail, EndOf, Consume;
      Front(buffer[..], len, prefixPos, prefixPos + PREFIX_LEN);
      Front(buffer[..], len, prefixPos + PREFIX_LEN, suffixPos);
      assert buffer[..][..len] == buffer[..len];
      text := buffer[prefixPos + PREFIX_LEN..suffixPos];
      decodeIndex := suffixPos;
      var p := DecodeText(buffer[prefixPos + PREFIX_LEN..suffixPos]);
      if p == None {
        resets := resets + 1;
        assert buffer[prefixPos..suffixPos] == PREFIX + text;
        return Refused, text;
      }
      EatBuffer();
      payloads := payloads + [p.value];
      return Taken, text;
    }

    lemma PastRight()
      requires Valid() && SkipsPastEnd()
      ensures Parsed(buffer[..len], decodeIndex) == Past
    {
      hide PREFIX, StrStr, StrLen, FindPrefix, FirstNul, Consume;
      NothingIs(buffer[..], len, decodeIndex, View());
      assert buffer[..len][decodeIndex..] == View();
    }

    /** The index is on the end of a frame with this text, which is still in front of it. */
    ghost predicate RejectedText(text: string)
      requires Bounded()
      reads this, buffer
    {
      && |text| + PREFIX_LEN <= decodeIndex < len && buffer[decodeIndex] == BEL
      && buffer[decodeIndex - |text| - PREFIX_LEN..decodeIndex] == PREFIX + text
    }

    /** One round of parsePkg's loop. */
    method NextFrame() returns (r: Round, ghost text: string)
      requires Valid()
      modifies this, buffer
      ensures r == Lost <==> old(SkipsPastEnd())
      ensures r == Lost ==> Parsed(old(buffer[..len]), old(decodeIndex)) == Past
      ensures r != Lost ==>
                && Valid() && len <= old(len) && (r == Taken ==> len < old(len) && decodeIndex == 0)
                && (r == Refused ==> RejectedText(text))
                && RoundDone(old(buffer[..len]), old(decodeIndex), r, text, buffer[..len], decodeIndex, old(LosesStart()))
      ensures resets == old(resets) + (if r == Refused then 1 else 0) && payloads == old(payloads) + Handed(r, text)
    {
      hide PREFIX, StrStr, StrLen, Parse, Reads, Payload, Rest, Kept, ZeroTail, EndsInPrefix, Parsed, FromIndex, Consume,
           RejectedText, PrefixAhead, BehindNul, SkipLeaves, RoundDone, FrameDone;
      text := "";
      ghost var b, k, loses := buffer[..len], decodeIndex, LosesStart();
      var prefixPos, overrun := Seek();
      if overrun { return Lost, text; }
      if prefixPos < 0 || prefixPos > len - PREFIX_LEN {
        RoundEnds(b, k, buffer[..len], loses);
        return Unfinished, text;
      }
      ghost var b1, k1 := buffer[..len], decodeIndex;
      r, text := TakeFrame(prefixPos);
      RoundOf(b, k, b1, k1, prefixPos, r, text, buffer[..len], decodeIndex);
    }

    /** The skip loop, as what parsing begins with. */
    method Seek() returns (prefixPos: int, overrun: bool)
      requires Valid()
      modifies this`len, this`decodeIndex, buffer
      ensures overrun <==> old(SkipsPastEnd())
      ensures overrun ==> Parsed(old(buffer[..len]), old(decodeIndex)) == Past
      ensures !overrun && prefixPos >= 0 ==>
                && Valid() && len <= old(len) && !old(LosesStart())
                && StrStr(buffer[..], decodeIndex, PREFIX) == prefixPos && prefixPos + PREFIX_LEN <= len
                && decodeIndex <= prefixPos
                && Parsed(old(buffer[..len]), old(decodeIndex)) == Pass(FromIndex(buffer[..len], decodeIndex, prefixPos), false)
                && Reads(old(buffer[..len])[old(decodeIndex)..], [], buffer[..len][decodeIndex..])
      ensures !overrun && prefixPos < 0 ==>
                && Valid() && len <= old(len) && len <= PREFIX_LEN && decodeIndex == 0
                && Parsed(old(buffer[..len]), old(decodeIndex)) == Pass(Leftover(buffer[..len], 0, []), old(LosesStart()))
                && if old(LosesStart()) then buffer[..len] == [] && !Reads(old(buffer[..len])[old(decodeIndex)..], [], [])
                   else Reads(old(buffer[..len])[old(decodeIndex)..], [], buffer[..len])
      ensures !overrun && old(decodeIndex) == 0 ==>
                decodeIndex == 0 && len <= buffer.Length && Rest(buffer[..len]) == Rest(old(buffer[..len]))
    {
      hide PREFIX, StrStr, StrLen, Parse, Reads, Rest, Kept, ZeroTail, EndsInPrefix, Parsed, FromIndex, Consume, PrefixAhead,
           BehindNul, SkipLeaves;
      if SkipsPastEnd() { PastRight(); }
      ghost var b, k, loses := buffer[..len], decodeIndex, LosesStart();
      assert View() == b[k..];
      assert k == 0 ==> b[k..] == b;
      NothingIs(buffer[..], len, decodeIndex, View());
      RestOfKept(View());
      prefixPos, overrun := FindFrame();
      if overrun { return; }
      assert View() == buffer[..len][decodeIndex..];
      assert decodeIndex == 0 ==> View() == buffer[..len];
      if prefixPos >= 0 { FoundFirst(buffer[..], len, decodeIndex, prefixPos); }
      Sought(b, k, buffer[..len], decodeIndex, prefixPos, loses);
    }

    /** parsePkg's loop when the index is at the start of the buffer. */
    method ParseFrames() returns (r: Outcome, ghost texts: seq<string>, ghost bad: seq<string>)
      requires Valid() && decodeIndex == 0
      modifies this, buffer
      ensures Valid() && len <= old(len)
      ensures PkgDone(old(buffer[..len]), 0, r, texts, bad, buffer[..len], decodeIndex, false)
      ensures payloads == old(payloads) + Payloads(texts) && resets == old(resets) + |bad|
      ensures r == Rejected ==> RejectedText(bad[0])
    {
      hide PREFIX, StrStr, StrLen, Parse, Reads, Payload, Payloads, ZeroTail, Rest, EndsInPrefix, RejectedText, Consume, Parsed,
           Account, Prepend, Took, AllPackages, RoundDone, Handed;
      texts, bad := [], [];
      NoPayloads();
      ghost var start := buffer[..len];
      TookNone(start);
      while len > 0
        invariant Valid() && decodeIndex == 0 && bad == [] && resets == old(resets) && len <= old(len)
        invariant AllPackages(texts) && payloads == old(payloads) + Payloads(texts)
        invariant Took(start, texts, buffer[..len])
        decreases len
      {
        ghost var view := buffer[..len];
        NoneLost();
        var frame, text := NextFrame();
        TookOne(start, texts, view, frame, text, buffer[..len], decodeIndex);
        HandedIs(frame, text);
        if frame == Refused { return Rejected, texts, [text]; }
        if frame == Unfinished { return Waiting, texts, bad; }
        PayloadsSnoc(texts, text);
        texts := texts + [text];
      }
      TookAll(start, texts, buffer[..len]);
      r := Waiting;
    }

    /** parsePkg (osc/OscSession.cpp:72-197). It hands over, in order, exactly the packages of
        the frames received, and ends when no complete frame is left or at the first text that
        is no package. What it leaves is all that can matter to what arrives later; behind a
        rejected text, that fails exactly when the skip passes the end of what was received
        or drops the beginning of the next frame. The first round is the only one that may
        begin behind a rejected text. */
    method ParsePkg() returns (r: Outcome, ghost texts: seq<string>, ghost bad: seq<string>)
      requires Valid()
      modifies this, buffer
      ensures r == Overrun <==> old(SkipsPastEnd())
      ensures r == Overrun ==> texts == [] && bad == [] && Parsed(old(buffer[..len]), old(decodeIndex)) == Past
      ensures r != Overrun ==>
                && Valid() && len <= old(len)
                && PkgDone(old(buffer[..len]), old(decodeIndex), r, texts, bad, buffer[..len], decodeIndex, old(LosesStart()))
      ensures AllPackages(texts) && payloads == old(payloads) + Payloads(texts) && resets == old(resets) + |bad|
      ensures r == Rejected ==> RejectedText(bad[0])
    {
      hide PREFIX, StrStr, StrLen, Parse, Reads, Payload, Payloads, ZeroTail, Rest, EndsInPrefix, RejectedText, AllPackages,
           LosesStart, Consume, Parsed, RoundDone, Handed;
      texts, bad := [], [];
      NoPayloads();
      if decodeIndex == 0 {
        NoneLost();
        r, texts, bad := ParseFrames();
        return;
      }
      ghost var b, k, loses := buffer[..len], decodeIndex, LosesStart();
      var frame, text := NextFrame();
      HandedIs(frame, text);
      if frame == Lost { return Overrun, texts, bad; }
      ghost var view := buffer[..len];
      if frame == Taken {
        r, texts, bad := ParseFrames();
        PkgMore(b, k, text, view, r, texts, bad, buffer[..len], decodeIndex, loses);
        assert old(payloads) + [Payload(text).value] + Payloads(texts) == old(payloads) + ([Payload(text).value] + Payloads(texts));
        texts := [text] + texts;
      } else {
        PkgOne(b, k, frame, text, view, decodeIndex, loses);
        r, bad := if frame == Refused then Rejected else Waiting, if frame == Refused then [text] else [];
      }
    }

    lemma NoneLost()
      requires Valid() && decodeIndex == 0
      ensures !LosesStart() && !SkipsPastEnd()
    {
    }

    /** The receiver is where the session is, and has handed over the packages among its texts
        and posted RESET once for each other text. */
    ghost predicate At(s: Session)
      reads this, buffer
    {
      && s.Session? && Valid() && buffer[..len] == s.flow.view && decodeIndex == s.index
      && Accounts(s.texts) && (decodeIndex != 0 ==> resets > 0)
    }

    ghost predicate Accounts(texts: seq<string>)
      reads this
    {
      payloads == Delivered(texts) && resets == Rejections(texts)
    }

    /** The queued parsePkg. */
    method ParseStep(ghost input: string, ghost s: Session) returns (overrun: bool)
      requires InBuffer(input, s) && At(s) && Sound(input, s)
      modifies this, buffer
      ensures var r := After(input, s, RunParse);
              && overrun == r.PastEnd? && Accounts(r.texts) && (!overrun ==> At(r) && Sound(input, r))
              && (AllPackages(s.texts) ==> !overrun && (r.lost ==> s.lost))
              && (AllPackages(s.texts) && AllPackages(r.texts) ==> r.index == 0 && r.flow.view == Rest(s.flow.view))
    {
      hide PREFIX, StrStr, StrLen, Parse, Reads, Payload, Payloads, ZeroTail, AllPackages, Rest, Delivered, Rejections,
           EndsInPrefix, RejectedText, Parsed;
      ghost var view := View();
      assert view == s.flow.view[s.index..];
      assert decodeIndex == 0 ==> view == s.flow.view;
      NoneRejected(s.texts);
      var r;
      ghost var more, bad;
      r, more, bad := ParsePkg();
      overrun := r == Overrun;
      DeliveredAll(more);
      DeliveredBad(bad);
      DeliveredAppend(more, bad);
      DeliveredAppend(s.texts, more + bad);
      NoneRejected(s.texts + (more + bad));
      assert r == Overrun ==> s.texts + (more + bad) == s.texts;
      if r != Overrun {
        SoundAfter(input, s, view, more + bad, buffer[..len], decodeIndex);
        if decodeIndex == 0 { assert View() == buffer[..len]; }
      }
    }

    /** A read of up to `n` bytes under the guard (osc/OscSession.cpp:220-224). */
    method ReadStep(input: string, n: nat, read0: nat, ghost s: Session) returns (read: nat)
      requires InBuffer(input, s) && At(s) && Sound(input, s) && read0 == s.flow.read
      modifies this`len, buffer
      ensures var r := After(input, s, ReadInput(n)); At(r) && Sound(input, r) && read == r.flow.read
    {
      hide Parse, Reads, ZeroTail, Delivered, Rejections, Chunk;
      read := read0;
      if GuardOpen(len) {
        var k := Chunk(n, |input| - read);
        var str := input[read..read + k];
        if !s.lost { ReadsMore(input[..read], s.texts, View(), str); }
        Receive(str);
        TwoParts(input, read, k);
        ViewMore(s.flow.view, s.index, str);
        read := read + k;
      }
    }

    method TakeStep(input: string, step: Step, read0: nat, ghost s: Session) returns (read: nat, overrun: bool)
      requires InBuffer(input, s) && At(s) && Sound(input, s) && read0 == s.flow.read
      modifies this, buffer
      ensures var r := After(input, s, step);
              && overrun == r.PastEnd? && read == ReadOf(r) && Accounts(r.texts) && (!overrun ==> At(r) && Sound(input, r))
              && (AllPackages(Parse(input)) && !s.lost && s.index == 0 ==>
                    r.Session? && !r.lost && r.index == 0 && r.flow == Next(input, s.flow, step))
    {
      hide Parse, Sound, AllPackages, Rest, Parsed, Chunk, Delivered, Rejections;
      ReadSoFar(input, s);
      read, overrun := read0, false;
      match step {
        case ReadInput(n) => read := ReadStep(input, n, read0, s);
        case RunParse => overrun := ParseStep(input, s);
      }
      if !overrun { ReadSoFar(input, After(input, s, step)); }
    }

    /** A receiving session: reads of any size under the guard, and parses, in any order. For
        every input it is at each moment where PlayAll says. As long as no beginning of a
        frame may have been dropped, the texts taken and the bytes not used are those of the
        input read; without a text that is no package, none ever is, and the index never
        moves past the bytes received. */
    method Transport(input: string, steps: seq<Step>) returns (read: nat, overrun: bool)
      requires Valid() && len == 0 && decodeIndex == 0 && payloads == [] && resets == 0
      modifies this, buffer
      ensures var s := PlayAll(input, steps);
              && overrun == s.PastEnd? && read == ReadOf(s) && Accounts(s.texts)
              && (!overrun ==> At(s) && Sound(input, s))
              && (AllPackages(Parse(input)) ==> s.Session? && !s.lost && s.index == 0 && s.flow == Play(input, steps))
    {
      hide Parse, AllPackages, Play, PlayAll, After, Next, Accounts, Valid, Sound;
      read, overrun := 0, false;
      ghost var s := PlayAll(input, []);
      Starts(input);
      assert steps[..0] == [];
      for i := 0 to |steps|
        invariant !overrun && s == PlayAll(input, steps[..i]) && s.Session? && read == s.flow.read && At(s) && Sound(input, s)
        invariant AllPackages(Parse(input)) ==> !s.lost && s.index == 0 && s.flow == Play(input, steps[..i])
      {
        PlayNext(input, steps, i);
        PlayAllNext(input, steps, i);
        read, overrun := TakeStep(input, steps[i], read, s);
        s := After(input, s, steps[i]);
        if overrun {
          PastForEver(input, steps, i + 1);
          return;
        }
      }
      assert steps[..|steps|] == steps;
    }

    lemma Starts(input: string)
      requires Valid() && len == 0 && decodeIndex == 0 && payloads == [] && resets == 0
      ensures PlayAll(input, []) == Session(Flow([], 0), 0, [], false) && Play(input, []) == Flow([], 0)
      ensures At(PlayAll(input, [])) && Sound(input, PlayAll(input, []))
    {
      NothingYet(input, View());
      assert buffer[..len] == [];
      assert PlayAll(input, []).flow.view[0..] == [];
    }
  }

  lemma ViewMore(v: string, k: nat, str: string)
    requires k <= |v|
    ensures (v + str)[k..] == v[k..] + str
  {
  }

  lemma TwoParts(input: string, n: nat, k: nat)
    requires n + k <= |input|
    ensures input[..n] + input[n..n + k] == input[..n + k]
  {
  }

  lemma PlayNext(input: string, steps: seq<Step>, i: nat)
    requires i < |steps|
    ensures Play(input, steps[..i + 1]) == Next(input, Play(input, steps[..i]), steps[i])
  {
    assert steps[..i + 1] == steps[..i] + [steps[i]];
    PlayOne(input, steps[..i], steps[i]);
  }

  lemma NothingYet(input: string, view: string)
    requires view == []
    ensures Reads(input[..0], [], view) && Delivered([]) == [] && Rejections([]) == 0 && Flow(view, 0) == Play(input, [])
  {
    ReadsNone([]);
  }

  /** What was read so far are the first texts of the whole. */
  lemma ReadSoFar(input: string, s: Session)
    requires s.Session? && InBuffer(input, s) && Sound(input, s)
    ensures !s.lost && AllPackages(Parse(input)) ==> AllPackages(s.texts)
  {
    hide Payload, Parse;
    if !s.lost {
      SoundParse(input, s);
      assert forall i :: 0 <= i < |s.texts| ==> Parse(input)[i] == s.texts[i];
    }
  }

  lemma PayloadsSnoc(texts: seq<string>, text: string)
    requires AllPackages(texts) && Payload(text).Some?
    ensures AllPackages(texts + [text]) && Payloads(texts + [text]) == Payloads(texts) + [Payload(text).value]
  {
    hide Payload;
  }

  // ---------------------------------------------------------------- several rounds

  /** `texts` were taken from `start`, and `view` is left. */
  ghost predicate Took(start: string, texts: seq<string>, view: string) {
    Reads(start, texts, view) && Rest(start) == Rest(view) && Consume(start) == Prepend(texts, Consume(view))
  }

  lemma TookNone(view: string)
    ensures Took(view, [], view)
  {
    hide Parse, Rest, Consume;
    ReadsNone(view);
    PrependMore([], [], Consume(view));
  }

  /** One round more. */
  lemma TookOne(start: string, texts: seq<string>, view: string, frame: Round, text: string, b: string, k: nat)
    requires Took(start, texts, view) && AllPackages(texts) && k <= |b| && RoundDone(view, 0, frame, text, b, k, false)
    ensures frame == Taken ==> k == 0 && Took(start, texts + [text], b) && !Bad(text)
    ensures frame != Taken ==>
              PkgDone(start, 0, if frame == Refused then Rejected else Waiting, texts,
                      if frame == Refused then [text] else [], b, k, false)
  {
    hide Reads, Rest, Consume, Parsed, Account, Prepend, Bad, AllPackages, Parse;
    var more := if frame == Unfinished then [] else [text];
    RoundAfter(start, texts, view, frame, text, b, k, false);
    assert view[0..] == view && start[0..] == start;
    ReadsTrans(start, texts, view, more, b[k..]);
    ParsedStart(start);
    assert k == 0 ==> b[k..] == b;
    assert texts + [] == texts;
  }

  lemma TookAll(start: string, texts: seq<string>, b: string)
    requires Took(start, texts, b) && b == [] && AllPackages(texts)
    ensures PkgDone(start, 0, Waiting, texts, [], b, 0, false)
  {
    hide Reads, Parse, Rest, Consume, AllPackages;
    NothingLeft(b);
    ConsumeTiny(b);
    ParsedStart(start);
    assert b[0..] == b && start[0..] == start && texts + [] == texts;
  }

  /** A round from behind a rejected text that ends parsing. */
  lemma PkgOne(b0: string, k0: nat, r: Round, text: string, b: string, k: nat, lost: bool)
    requires 0 < k0 <= |b0| && k <= |b| && RoundDone(b0, k0, r, text, b, k, lost) && r != Taken
    ensures PkgDone(b0, k0, if r == Refused then Rejected else Waiting, [], if r == Refused then [text] else [], b, k, lost)
  {
    hide Reads, Rest, Parsed, Bad, Parse;
    assert [] + [text] == [text];
  }

  /** A package taken before the others. */
  lemma PkgMore(b0: string, k0: nat, text: string, view: string, r: Outcome, texts: seq<string>, bad: seq<string>,
                b: string, k: nat, lost: bool)
    requires 0 < k0 <= |b0| && k <= |b| && RoundDone(b0, k0, Taken, text, view, 0, lost)
    requires PkgDone(view, 0, r, texts, bad, b, k, false)
    ensures PkgDone(b0, k0, r, [text] + texts, bad, b, k, lost)
    ensures !Bad(text) && Payloads([text] + texts) == [Payload(text).value] + Payloads(texts)
  {
    hide Reads, Rest, Consume, Parsed, Payload, Parse;
    ParsedStart(view);
    assert view[0..] == view;
    ReadsTrans(b0[k0..], [text], view, texts + bad, b[k..]);
    assert [text] + (texts + bad) == [text] + texts + bad;
  }

  /** Decoding a text (osc/OscSession.cpp:102-122). */
  method DecodeText(text: string) returns (p: Option<seq<byte>>)
    ensures p == Payload(text)
  {
    if |text| > MAX_ENCODED { return None; }
    var xz := new byte[MAX_ENCODED](_ => 0);
    var xzLen := Base64.Base64Decode(text, xz);
    if xzLen <= 0 { return None; }
    var decoded := new byte[MAX_ENCODED](_ => 0);
    assert decoded[..0] == [];
    var decodeLen := Lz4RoundTrip.DecompressSafe(xz[..xzLen], decoded, 0, MAX_ENCODED);
    if decodeLen <= 0 { return None; }
    return Some(decoded[..decodeLen]);
  }

  lemma SuffixInside(s: string, len: nat, from: nat)
    requires ZeroTail(s, len) && from <= len
    ensures StrStr(s, from, SUFFIX) < len
  {
    EndLetters();
    StrLenInside(s, len, from);
  }

  lemma ReadsNone(b: string)
    ensures Reads(b, [], b)
  {
    hide Parse;
  }

  // ---------------------------------------------------------------- behind a rejected text

  /** A buffer that has received one frame, whose text is no package. */
  method RejectOne(text: string) returns (b: ReceiveBuffer)
    requires PlainText(text) && Payload(text) == None && |text| < READ_SIZE - PREFIX_LEN
    ensures fresh(b) && fresh(b.buffer) && b.Valid() && b.payloads == [] && b.resets == 1
    ensures b.decodeIndex == PREFIX_LEN + |text| && b.len == b.decodeIndex + 1 && b.View() == [BEL]
  {
    PrefixLetters();
    EndLetters();
    hide PREFIX, SUFFIX, Parse, Reads, Payload, ZeroTail, PlainText, Payloads, AllPackages, StrStr, StrLen, EndsInPrefix, Rest,
         ReceiveBuffer.RejectedText;
    b := new ReceiveBuffer();
    b.Receive(PREFIX + text + SUFFIX);
    assert b.View() == PREFIX + text + SUFFIX;
    var r;
    ghost var texts, bad;
    r, texts, bad := b.ParsePkg();
    OneText(text, texts, bad, b.View());
    OneRejected(text, texts, bad, Parse(b.View()));
    RejectedLast(b, text);
  }

  lemma RejectedLast(b: ReceiveBuffer, text: string)
    requires b.Valid() && b.RejectedText(text) && b.len <= PREFIX_LEN + |text| + 1
    ensures b.decodeIndex == PREFIX_LEN + |text| && b.len == b.decodeIndex + 1 && b.View() == [BEL]
  {
    assert b.View() == [b.buffer[b.decodeIndex]];
  }

  lemma OneRejected(text: string, texts: seq<string>, bad: seq<string>, rest: seq<string>)
    requires texts + bad + rest == [text] && Payload(text) == None && AllPackages(texts)
    requires (rest == [] && bad == []) || |bad| == 1
    ensures texts == [] && bad == [text] && Payloads(texts) == []
  {
    hide Payload;
    assert (texts + bad + rest)[0] == text;
  }

  lemma OneText(text: string, texts: seq<string>, bad: seq<string>, view: string)
    requires PlainText(text) && Reads(PREFIX + text + SUFFIX, texts + bad, view)
    ensures texts + bad + Parse(view) == [text]
  {
    PrefixLetters();
    EndLetters();
    hide PREFIX, SUFFIX, Parse, PlainText;
    var v := PREFIX + text + SUFFIX;
    ParseFrame(text, []);
    assert v + [] == PREFIX + text + SUFFIX + [] && view + [] == view && SUFFIX + [] == [BEL];
    assert Parse(v + []) == texts + bad + Parse(view + []);
    ShortHoldsNone([BEL]);
    NoParse([BEL]);
  }

  lemma NoParse(v: string)
    requires NoFrame(v)
    ensures Parse(v) == []
  {
    hide OccursAt;
    ParseNone(v, |v|);
  }

  lemma NoPackages()
    ensures Payload("?") == None && Payload("") == None
    ensures PlainText("?") && PlainText("")
  {
    assert Base64.Value("?"[0]) == -1;
    assert !Base64.Readable("?", 1);
  }

  /** One frame whose text is no package, and nothing after it: parsing again skips past the
      end of what was received. */
  method SkipPastEndExample() returns (r: Outcome)
    ensures r == Overrun
  {
    NoPackages();
    var b := RejectOne("?");
    PrefixLetters();
    hide PREFIX, Payload, Parse, Reads, StrStr, StrLen, EndsInPrefix, Rest, AllPackages, Payloads;
    OnlyBel(b.buffer[..], b.len);
    ghost var texts, bad;
    r, texts, bad := b.ParsePkg();
  }

  lemma OnlyBel(s: string, len: nat)
    requires ZeroTail(s, len) && len >= 1 && s[len - 1] == BEL
    ensures StrStr(s, len - 1, PREFIX) < 0 && len - 1 + StrLen(s, len - 1) == len
  {
    PrefixLetters();
    hide PREFIX;
    assert s[len] == NUL;
  }

  /** An empty text is rejected, and then the beginning of a frame arrives: it is dropped. */
  method CutOne(j: nat) returns (b: ReceiveBuffer)
    requires 1 <= j < PREFIX_LEN <= |PREFIX|
    ensures fresh(b) && fresh(b.buffer) && b.Valid() && b.payloads == [] && b.resets == 1 && b.View() == [] && b.decodeIndex == 0
  {
    NoPackages();
    b := RejectOne("");
    hide PREFIX, SUFFIX, Payload, Parse, Reads, PlainText, StrStr, StrLen, EndsInPrefix, Rest, AllPackages, ZeroTail,
         ReceiveBuffer.LosesStart, ReceiveBuffer.SkipsPastEnd, ReceiveBuffer.RejectedText;
    b.Receive(PREFIX[..j]);
    LosesCut(b, j);
    var r;
    ghost var texts, bad;
    r, texts, bad := b.ParsePkg();
    NoPayloads();
  }

  lemma NoPayloads()
    ensures AllPackages([]) && Payloads([]) == []
  {
  }

  /** The prefix of a frame arrives in two parts behind an empty text: the frame, which any
      reader of the whole stream sees, is never delivered. */
  method LostFrameExample(j: nat, text: string) returns (b: ReceiveBuffer)
    requires 1 <= j < PREFIX_LEN && PlainText(text) && ESC !in text && |text| < READ_SIZE - PREFIX_LEN
    ensures Parse(PREFIX + SUFFIX + PREFIX + text + SUFFIX) == ["", text]
    ensures b.Valid() && b.payloads == [] && b.resets == 1 && Parse(b.View()) == []
  {
    PrefixLetters();
    EndLetters();
    TwoFrames(text);
    hide PREFIX, SUFFIX, Payload, Parse, Reads, PlainText, StrStr, StrLen, EndsInPrefix, Rest, AllPackages, ZeroTail,
         ReceiveBuffer.LosesStart, ReceiveBuffer.SkipsPastEnd, ReceiveBuffer.RejectedText;
    b := CutOne(j);
    b.Receive(PREFIX[j..] + text + SUFFIX);
    ghost var view := PREFIX[j..] + text + SUFFIX;
    assert b.View() == view;
    CutFrameUnseen(j, text);
    var r;
    ghost var texts, bad;
    r, texts, bad := b.ParsePkg();
    NothingRead(view, texts, bad, b.View());
    NoPayloads();
  }

  lemma LosesCut(b: ReceiveBuffer, j: nat)
    requires 1 <= j < PREFIX_LEN <= |PREFIX| && b.Valid() && b.decodeIndex == PREFIX_LEN && b.View() == [BEL] + PREFIX[..j]
    ensures b.LosesStart() && !b.SkipsPastEnd()
  {
    hide PREFIX, StrStr, StrLen, EndsInPrefix;
    CutAhead(b.buffer[..], b.len, j);
  }

  lemma NothingRead(v: string, texts: seq<string>, bad: seq<string>, view: string)
    requires Parse(v) == [] && Reads(v, texts + bad, view)
    ensures texts == [] && bad == [] && Parse(view) == []
  {
    hide Parse;
    assert v + [] == v && view + [] == view;
    assert Parse(v + []) == texts + bad + Parse(view + []);
  }

  lemma TwoFrames(text: string)
    requires PlainText(text)
    ensures Parse(PREFIX + SUFFIX + PREFIX + text + SUFFIX) == ["", text]
  {
    NoPackages();
    PrefixLetters();
    EndLetters();
    hide PREFIX, SUFFIX, Parse, PlainText;
    var second := PREFIX + text + SUFFIX + [];
    assert PREFIX + SUFFIX + PREFIX + text + SUFFIX == PREFIX + "" + SUFFIX + second;
    ParseFrame("", second);
    ShortHoldsNone(SUFFIX);
    ParseAfter(SUFFIX, second);
    ParseFrame(text, []);
    assert SUFFIX + [] == [BEL];
    ShortHoldsNone([BEL]);
    NoParse([BEL]);
  }

  /** Behind the end of a rejected empty text, only the beginning of a frame start is there. */
  lemma CutAhead(s: string, len: nat, j: nat)
    requires 1 <= j < PREFIX_LEN && ZeroTail(s, len) && len == PREFIX_LEN + 1 + j && s[PREFIX_LEN..len] == [BEL] + PREFIX[..j]
    ensures StrStr(s, PREFIX_LEN, PREFIX) < 0 && PREFIX_LEN + StrLen(s, PREFIX_LEN) == len
    ensures EndsInPrefix(s[PREFIX_LEN..len])
  {
    PrefixLetters();
    hide PREFIX, StrStr, StrLen, EndsInPrefix;
    var v := s[PREFIX_LEN..len];
    assert s[PREFIX_LEN] == v[0];
    StrLenInside(s, len, PREFIX_LEN);
    forall k | PREFIX_LEN <= k < len ensures s[k] != NUL { assert s[k] == v[k - PREFIX_LEN]; }
    BelStartsNone(s, PREFIX_LEN);
    assert v[|v| - j..] == PREFIX[..j];
    CutAt(v, j);
  }

  lemma BelStartsNone(s: string, p: nat)
    requires p < |s| && s[p] == BEL
    ensures !OccursIn(s, p, PREFIX)
  {
    PrefixLetters();
    hide PREFIX;
  }

  lemma CutFrameUnseen(j: nat, text: string)
    requires 1 <= j < PREFIX_LEN && ESC !in text
    ensures Parse(PREFIX[j..] + text + SUFFIX) == []
  {
    PrefixLetters();
    EndLetters();
    hide PREFIX, SUFFIX, Parse;
    var s := PREFIX[j..] + text + SUFFIX;
    assert forall k :: 0 <= k < |s| ==> s[k] != ESC;
    NoEscape(s);
    NoParse(s);
  }
}
