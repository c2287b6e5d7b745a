/** What the greedy compressor makes of a source (lz/lz4.c:973-1308): which sequences, for any
    hash and any table, and how the three output disciplines cut them to their budget. */
module Lz4Greedy {
  import opened Bytes
  import opened Lz4Format
  import opened Lz4Search

  // ---------------------------------------------------------------- how far bytes agree

  /** How many bytes from `b` on, below `limit`, are those from `a` on. */
  function CommonLength(mem: seq<byte>, a: nat, b: nat, limit: nat): (n: nat)
    requires a <= b <= limit <= |mem|
    ensures b + n <= limit
    decreases limit - b
  {
    if b < limit && mem[a] == mem[b] then 1 + CommonLength(mem, a + 1, b + 1, limit) else 0
  }

  /** It is the length after which the bytes differ, or the limit is reached. */
  lemma {:induction false} CommonLengthIs(mem: seq<byte>, a: nat, b: nat, limit: nat, n: nat)
    requires a <= b && b + n <= limit <= |mem| && SameBytes(mem, a, b, n) && (b + n == limit || mem[b + n] != mem[a + n])
    ensures CommonLength(mem, a, b, limit) == n
    decreases n
  {
    if n > 0 {
      assert mem[b] == mem[b - (b - a)];
      assert SameBytes(mem, a + 1, b + 1, n - 1);
      CommonLengthIs(mem, a + 1, b + 1, limit, n - 1);
    }
  }

  lemma {:induction false} CommonLengthSame(mem: seq<byte>, a: nat, b: nat, limit: nat)
    requires a <= b <= limit <= |mem|
    ensures var n := CommonLength(mem, a, b, limit);
            SameBytes(mem, a, b, n) && (b + n == limit || mem[b + n] != mem[a + n])
    decreases limit - b
  {
    if b < limit && mem[a] == mem[b] {
      CommonLengthSame(mem, a + 1, b + 1, limit);
      var n := CommonLength(mem, a + 1, b + 1, limit);
      forall p | b <= p < b + n + 1 ensures mem[p] == mem[p - (b - a)] { assert p > b ==> mem[p] == mem[p - (b - a)]; }
    }
  }

  /** How many bytes before `b`, down to `anchor`, are those before `a`, down to `low`. */
  function Back(mem: seq<byte>, a: nat, b: nat, anchor: nat, low: nat): (n: nat)
    requires low <= a < b < |mem| && anchor <= b
    ensures n <= b - anchor && n <= a - low
    decreases a
  {
    if b > anchor && a > low && mem[b - 1] == mem[a - 1] then 1 + Back(mem, a - 1, b - 1, anchor, low) else 0
  }

  lemma {:induction false} BackIs(mem: seq<byte>, a: nat, b: nat, anchor: nat, low: nat, n: nat)
    requires low <= a < b < |mem| && anchor <= b && n <= b - anchor && n <= a - low
    requires SameBytes(mem, a - n, b - n, n)
    requires n == b - anchor || n == a - low || mem[b - n - 1] != mem[a - n - 1]
    ensures Back(mem, a, b, anchor, low) == n
    decreases n
  {
    if n > 0 {
      assert mem[b - 1] == mem[b - 1 - (b - a)];
      BackIs(mem, a - 1, b - 1, anchor, low, n - 1);
    }
  }

  // ---------------------------------------------------------------- the sequences

  /** The sequences found, and the table then. */
  datatype Parse = Parse(ss: seq<Sequence>, table: seq<nat>)

  function Cons(s: Sequence, p: Parse): Parse {
    p.(ss := [s] + p.ss)
  }

  predicate Room(j: Job, t: seq<nat>) {
    |t| >= j.TableSize() && MFLIMIT <= j.iend <= |j.mem| && j.lowLimit <= j.source
  }

  /** The sequence for the match at `ip` with what is at `m`, after the literals from `anchor`. */
  function Match(j: Job, anchor: nat, ip: nat, m: nat): (s: Sequence)
    requires j.iend <= |j.mem| && anchor <= ip && m < ip && ip + MFLIMIT <= j.iend
    ensures s.mlen >= MINMATCH && ip + s.mlen <= j.Matchlimit() && |s.lits| == ip - anchor
  {
    Sequence(j.mem[anchor..ip], ip - m, CommonLength(j.mem, m + MINMATCH, ip + MINMATCH, j.iend - LASTLITERALS) + MINMATCH)
  }

  /** Search from `ip`, the literals from `anchor` on being open. */
  function Rounds(j: Job, t: seq<nat>, anchor: nat, ip: nat, acc: nat): (r: Parse)
    requires Room(j, t) && j.source <= anchor <= ip <= j.Mflimit1() && j.source < ip && acc >= 1
    ensures |r.table| == |t|
    decreases j.iend - anchor, 1
  {
    match Probe(j, t, ip, 1, acc * SKIP_TRIGGER)
    case NotFound(t') => Parse([], t')
    case Found(p, m, t') =>
      if m < j.lowLimit then Parse([], t')
      else
        var n := Back(j.mem, m, p, anchor, j.lowLimit);
        Chain(j, t', anchor, p - n, m - n, acc)
  }

  /** The match at `ip`, and what follows it. */
  function Chain(j: Job, t: seq<nat>, anchor: nat, ip: nat, m: nat, acc: nat): (r: Parse)
    requires Room(j, t) && j.source <= anchor <= ip && m < ip && ip + MFLIMIT <= j.iend && acc >= 1
    ensures |r.table| == |t|
    decreases j.iend - anchor, 0
  {
    var s := Match(j, anchor, ip, m);
    Cons(s, After(j, t, ip + s.mlen, acc))
  }

  /** Behind a match that ends at `e`: the next may follow at once. */
  function After(j: Job, t: seq<nat>, e: nat, acc: nat): (r: Parse)
    requires Room(j, t) && j.source + MINMATCH <= e <= j.Matchlimit() && acc >= 1
    ensures |r.table| == |t|
    decreases j.iend - e, 2
  {
    if e >= j.Mflimit1() then Parse([], t)
    else
      var t1 := t[j.Slot(e - 2) := j.Index(e - 2)];
      var i, t2 := t1[j.Slot(e)], t1[j.Slot(e) := j.Index(e)];
      if j.Recurs(i, e) then Chain(j, t2, e, e, j.Position(i), acc) else Rounds(j, t2, e, e + 1, acc)
  }

  function Greedy(j: Job, t: seq<nat>, acc: nat): (r: Parse)
    requires |t| >= j.TableSize() && j.lowLimit <= j.source <= j.iend <= |j.mem| && acc >= 1
    ensures |r.table| == |t|
  {
    if j.iend - j.source < MFLIMIT + 1 then Parse([], t)
    else Rounds(j, t[j.Slot(j.source) := j.startIndex], j.source, j.source + 1, acc)
  }

  /** The last five bytes are literals. */
  lemma {:induction false} RoundsSpan(j: Job, t: seq<nat>, anchor: nat, ip: nat, acc: nat)
    requires Room(j, t) && j.source <= anchor <= ip <= j.Mflimit1() && j.source < ip && acc >= 1
    ensures var ss := Rounds(j, t, anchor, ip, acc).ss; ss != [] ==> anchor + Span(ss) + LASTLITERALS <= j.iend
    decreases j.iend - anchor, 1
  {
    hide Probe, Back, Chain;
    match Probe(j, t, ip, 1, acc * SKIP_TRIGGER) {
      case NotFound(t') =>
      case Found(p, m, t') =>
        if m >= j.lowLimit {
          var n := Back(j.mem, m, p, anchor, j.lowLimit);
          ChainSpan(j, t', anchor, p - n, m - n, acc);
        }
    }
  }

  lemma {:induction false} ChainSpan(j: Job, t: seq<nat>, anchor: nat, ip: nat, m: nat, acc: nat)
    requires Room(j, t) && j.source <= anchor <= ip && m < ip && ip + MFLIMIT <= j.iend && acc >= 1
    ensures var ss := Chain(j, t, anchor, ip, m, acc).ss; ss != [] && anchor + Span(ss) + LASTLITERALS <= j.iend
    decreases j.iend - anchor, 0
  {
    hide Match, Rounds;
    var s := Match(j, anchor, ip, m);
    var e := ip + s.mlen;
    var rest := After(j, t, e, acc);
    assert Chain(j, t, anchor, ip, m, acc).ss == [s] + rest.ss;
    if e < j.Mflimit1() {
      var t1 := t[j.Slot(e - 2) := j.Index(e - 2)];
      var i, t2 := t1[j.Slot(e)], t1[j.Slot(e) := j.Index(e)];
      if j.Recurs(i, e) { ChainSpan(j, t2, e, e, j.Position(i), acc); } else { RoundsSpan(j, t2, e, e + 1, acc); }
    }
    assert ([s] + rest.ss)[1..] == rest.ss;
  }

  lemma GreedySpan(j: Job, t: seq<nat>, acc: nat)
    requires |t| >= j.TableSize() && j.lowLimit <= j.source <= j.iend <= |j.mem| && acc >= 1
    ensures var ss := Greedy(j, t, acc).ss; ss != [] ==> Span(ss) + LASTLITERALS <= j.iend - j.source
  {
    if j.iend - j.source >= MFLIMIT + 1 {
      RoundsSpan(j, t[j.Slot(j.source) := j.startIndex], j.source, j.source + 1, acc);
    }
  }

  // ---------------------------------------------------------------- no match can be longer

  lemma {:induction false} BackStops(mem: seq<byte>, a: nat, b: nat, anchor: nat, low: nat)
    requires low <= a < b < |mem| && anchor <= b
    ensures var n := Back(mem, a, b, anchor, low); n == b - anchor || n == a - low || mem[b - n - 1] != mem[a - n - 1]
    decreases a
  {
    if b > anchor && a > low && mem[b - 1] == mem[a - 1] { BackStops(mem, a - 1, b - 1, anchor, low); }
  }

  /** The match of `s` at `p` ends at a byte that differs or five bytes before the end of the
      source, and begins at the last match, at the floor or behind a byte that differs. */
  ghost predicate Longest(j: Job, p: nat, s: Sequence) {
    && s.offset <= p && p + s.mlen <= j.Matchlimit() && j.iend <= |j.mem|
    && (p + s.mlen == j.Matchlimit() || j.mem[p + s.mlen] != j.mem[p + s.mlen - s.offset])
    && (s.lits == [] || p - s.offset == j.lowLimit || (p > s.offset && j.mem[p - 1] != j.mem[p - 1 - s.offset]))
  }

  ghost predicate AllLongest(j: Job, anchor: nat, ss: seq<Sequence>)
    decreases |ss|
  {
    ss == [] || (Longest(j, anchor + |ss[0].lits|, ss[0]) && AllLongest(j, anchor + |ss[0].lits| + ss[0].mlen, ss[1..]))
  }

  lemma MatchLongest(j: Job, anchor: nat, ip: nat, m: nat)
    requires j.iend <= |j.mem| && anchor <= ip && m < ip && ip + MFLIMIT <= j.iend
    requires anchor == ip || m == j.lowLimit || (m > 0 && j.mem[ip - 1] != j.mem[m - 1])
    ensures Longest(j, ip, Match(j, anchor, ip, m))
  {
    CommonLengthSame(j.mem, m + MINMATCH, ip + MINMATCH, j.iend - LASTLITERALS);
  }

  lemma {:induction false} RoundsLongest(j: Job, t: seq<nat>, anchor: nat, ip: nat, acc: nat)
    requires Room(j, t) && j.source <= anchor <= ip <= j.Mflimit1() && j.source < ip && acc >= 1
    ensures AllLongest(j, anchor, Rounds(j, t, anchor, ip, acc).ss)
    decreases j.iend - anchor, 1
  {
    hide Probe, Back, Chain, Longest;
    match Probe(j, t, ip, 1, acc * SKIP_TRIGGER) {
      case NotFound(t') =>
      case Found(p, m, t') =>
        if m >= j.lowLimit {
          var n := Back(j.mem, m, p, anchor, j.lowLimit);
          BackStops(j.mem, m, p, anchor, j.lowLimit);
          ChainLongest(j, t', anchor, p - n, m - n, acc);
        }
    }
  }

  lemma {:induction false} ChainLongest(j: Job, t: seq<nat>, anchor: nat, ip: nat, m: nat, acc: nat)
    requires Room(j, t) && j.source <= anchor <= ip && m < ip && ip + MFLIMIT <= j.iend && acc >= 1
    requires anchor == ip || m == j.lowLimit || (m > 0 && j.mem[ip - 1] != j.mem[m - 1])
    ensures AllLongest(j, anchor, Chain(j, t, anchor, ip, m, acc).ss)
    decreases j.iend - anchor, 0
  {
    hide Match, After, Longest;
    var s := Match(j, anchor, ip, m);
    var rest := After(j, t, ip + s.mlen, acc);
    MatchLongest(j, anchor, ip, m);
    AfterLongest(j, t, ip + s.mlen, acc);
    assert ([s] + rest.ss)[1..] == rest.ss;
  }

  lemma {:induction false} AfterLongest(j: Job, t: seq<nat>, e: nat, acc: nat)
    requires Room(j, t) && j.source + MINMATCH <= e <= j.Matchlimit() && acc >= 1
    ensures AllLongest(j, e, After(j, t, e, acc).ss)
    decreases j.iend - e, 2
  {
    hide Chain, Rounds, Longest;
    if e < j.Mflimit1() {
      var t1 := t[j.Slot(e - 2) := j.Index(e - 2)];
      var i, t2 := t1[j.Slot(e)], t1[j.Slot(e) := j.Index(e)];
      if j.Recurs(i, e) { ChainLongest(j, t2, e, e, j.Position(i), acc); } else { RoundsLongest(j, t2, e, e + 1, acc); }
    }
  }

  /** No match of the block can be made longer at either end. */
  lemma GreedyLongest(j: Job, t: seq<nat>, acc: nat)
    requires |t| >= j.TableSize() && j.lowLimit <= j.source <= j.iend <= |j.mem| && acc >= 1
    ensures AllLongest(j, j.source, Greedy(j, t, acc).ss)
  {
    if j.iend - j.source >= MFLIMIT + 1 {
      RoundsLongest(j, t[j.Slot(j.source) := j.startIndex], j.source, j.source + 1, acc);
    }
  }

  // ---------------------------------------------------------------- sizes and budgets

  /** How much of the source sequences cover. */
  function Span(ss: seq<Sequence>): (n: nat) {
    if ss == [] then 0 else |ss[0].lits| + ss[0].mlen + Span(ss[1..])
  }

  function Code(s: Sequence): (n: nat) { if s.mlen < MINMATCH then 0 else s.mlen - MINMATCH }

  /** How many bytes a sequence takes up to its match length, and with it. */
  function HeadSize(s: Sequence): (n: nat) { 1 + (|s.lits| + 240) / 255 + |s.lits| + 2 }

  function Size(ss: seq<Sequence>): (n: nat) {
    if ss == [] then 0 else HeadSize(ss[0]) + (Code(ss[0]) + 240) / 255 + Size(ss[1..])
  }

  function RunSize(n: nat): (r: nat) { 1 + (n + 240) / 255 + n }

  /** The size of the block with these sequences and the rest of the source as literals. */
  function BlockSize(j: Job, ss: seq<Sequence>): (n: nat)
    ensures n > 0
  {
    Size(ss) + RunSize(if j.iend - j.source < Span(ss) then 0 else j.iend - j.source - Span(ss))
  }

  lemma {:induction false} SizeIs(ss: seq<Sequence>)
    requires AllEncodable(ss)
    ensures |EncodeAll(ss)| == Size(ss)
    decreases |ss|
  {
    if ss != [] { SizeIs(ss[1..]); }
  }

  lemma {:induction false} SizeAppend(a: seq<Sequence>, b: seq<Sequence>)
    ensures Size(a + b) == Size(a) + Size(b) && Span(a + b) == Span(a) + Span(b)
    decreases |a|
  {
    if a == [] {
      assert a + b == b;
    } else {
      assert (a + b)[1..] == a[1..] + b;
      SizeAppend(a[1..], b);
    }
  }

  /** What a budget of `olimit` bytes keeps of the sequences if the output is to be filled: all
      until one does not fit, the last perhaps with its match cut short so that its length
      bytes leave room for five literals and their token. */
  function Filled(ss: seq<Sequence>, op: nat, olimit: int): (r: seq<Sequence>) {
    if ss == [] then []
    else
      var s, op2 := ss[0], op + HeadSize(ss[0]);
      if op2 + 9 > olimit then []
      else if op2 + 6 + (Code(s) + 240) / 255 > olimit then [s.(mlen := 18 + (olimit - op2 - 6) * 255)]
      else [s] + Filled(ss[1..], op2 + (Code(s) + 240) / 255, olimit)
  }

  /** Nine bytes more than the sequences take keep all of them. */
  lemma {:induction false} FilledAll(ss: seq<Sequence>, op: nat, olimit: int)
    requires op + Size(ss) + 9 <= olimit
    ensures Filled(ss, op, olimit) == ss
    decreases |ss|
  {
    if ss != [] { FilledAll(ss[1..], op + HeadSize(ss[0]) + (Code(ss[0]) + 240) / 255, olimit); }
  }

  /** What a call is to produce: the sequences that are kept, and without cutting also the table
      and the size of all of them. */
  datatype Goal = Goal(fill: bool, olimit: int, ss: seq<Sequence>, table: seq<nat>, size: nat)

  function GoalOf(p: Parse, fill: bool, olimit: int): (g: Goal) {
    Goal(fill, olimit, if fill then Filled(p.ss, 0, olimit) else p.ss, p.table, Size(p.ss))
  }

  /** `ss` are out, up to `op` in the output and `anchor` in the source, and with what is kept
      of `rest` the goal is reached. */
  ghost predicate Tracks(g: Goal, j: Job, op: nat, anchor: nat, ss: seq<Sequence>, rest: Parse) {
    && anchor == j.source + Span(ss)
    && ss + (if g.fill then Filled(rest.ss, op, g.olimit) else rest.ss) == g.ss
    && (!g.fill ==> rest.table == g.table && op + Size(rest.ss) == g.size)
  }

  lemma TracksStart(j: Job, p: Parse, fill: bool, olimit: int)
    ensures Tracks(GoalOf(p, fill, olimit), j, 0, j.source, [], p)
  {
  }

  lemma SizeCons(s: Sequence, ss: seq<Sequence>)
    ensures Size([s] + ss) == HeadSize(s) + (Code(s) + 240) / 255 + Size(ss)
    ensures Span([s] + ss) == |s.lits| + s.mlen + Span(ss) && Size([]) == 0 && Span([]) == 0
  {
    hide HeadSize, Code;
    assert ([s] + ss)[1..] == ss;
  }

  lemma SpanSnoc(ss: seq<Sequence>, s: Sequence)
    ensures Span(ss + [s]) == Span(ss) + |s.lits| + s.mlen
  {
    hide Size, Span;
    SizeAppend(ss, [s]);
    SizeCons(s, []);
    assert [s] + [] == [s];
  }

  lemma FilledCons(s: Sequence, ss: seq<Sequence>, op: nat, olimit: int)
    requires op + HeadSize(s) + 9 <= olimit && op + HeadSize(s) + 6 + (Code(s) + 240) / 255 <= olimit
    ensures Filled([s] + ss, op, olimit) == [s] + Filled(ss, op + HeadSize(s) + (Code(s) + 240) / 255, olimit)
  {
    hide HeadSize, Code;
    assert ([s] + ss)[1..] == ss;
  }

  /** The next sequence is out. */
  lemma TracksTake(g: Goal, j: Job, op: nat, anchor: nat, ss: seq<Sequence>, s: Sequence, rest: Parse)
    requires Tracks(g, j, op, anchor, ss, Cons(s, rest))
    requires g.fill ==> op + HeadSize(s) + 9 <= g.olimit && op + HeadSize(s) + 6 + (Code(s) + 240) / 255 <= g.olimit
    ensures Tracks(g, j, op + HeadSize(s) + (Code(s) + 240) / 255, anchor + |s.lits| + s.mlen, ss + [s], rest)
  {
    hide HeadSize, Code, Size, Span, Filled;
    SpanSnoc(ss, s);
    SizeCons(s, rest.ss);
    if g.fill { FilledCons(s, rest.ss, op, g.olimit); }
    var more := if g.fill then Filled(rest.ss, op + HeadSize(s) + (Code(s) + 240) / 255, g.olimit) else rest.ss;
    assert ss + ([s] + more) == ss + [s] + more;
  }

  /** The next sequence is out with its match cut short: nothing more is kept. */
  lemma TracksCut(g: Goal, j: Job, op: nat, anchor: nat, ss: seq<Sequence>, s: Sequence, rest: Parse, cut: Sequence, op': nat,
                  rest': Parse)
    requires g.fill && Tracks(g, j, op, anchor, ss, Cons(s, rest))
    requires op + HeadSize(s) + 9 <= g.olimit && op + HeadSize(s) + 6 + (Code(s) + 240) / 255 > g.olimit
    requires cut == s.(mlen := 18 + (g.olimit - op - HeadSize(s) - 6) * 255) && op' + 6 >= g.olimit
    ensures Tracks(g, j, op', anchor + |cut.lits| + cut.mlen, ss + [cut], rest')
  {
    hide Size, Span, Code;
    SpanSnoc(ss, cut);
    assert Filled(rest'.ss, op', g.olimit) == [];
    assert ss + [cut] + [] == ss + [cut];
  }

  /** The next sequence does not fit: none is kept any more. */
  lemma TracksStop(g: Goal, j: Job, op: nat, anchor: nat, ss: seq<Sequence>, s: Sequence, rest: Parse, rest': Parse)
    requires g.fill && Tracks(g, j, op, anchor, ss, Cons(s, rest)) && op + HeadSize(s) + 9 > g.olimit && rest'.ss == []
    ensures Tracks(g, j, op, anchor, ss, rest')
  {
  }

  /** The next sequence and five literals with their token pass the budget. */
  lemma TracksOver(g: Goal, j: Job, op: nat, anchor: nat, ss: seq<Sequence>, s: Sequence, rest: Parse)
    requires !g.fill && Tracks(g, j, op, anchor, ss, Cons(s, rest)) && op + HeadSize(s) + 6 + (Code(s) + 240) / 255 > g.olimit
    ensures g.size + 6 > g.olimit && g.ss != []
  {
    assert [s] + rest.ss == Cons(s, rest).ss;
  }

  lemma TracksEnd(g: Goal, j: Job, op: nat, anchor: nat, ss: seq<Sequence>, rest: Parse)
    requires Tracks(g, j, op, anchor, ss, rest) && rest.ss == []
    ensures ss == g.ss && anchor == j.source + Span(ss) && (!g.fill ==> op == g.size && rest.table == g.table)
  {
    assert ss + [] == ss;
  }
}
