/** A run of equal bytes is compressed to little more than its length bytes, whatever the hash:
    the search finds the position stored right before (lz/lz4.c:1008-1083). */
module Lz4Runs {
  import opened Bytes
  import opened Lz4Compressor
  import opened Lz4Format
  import opened Lz4Greedy
  import opened Lz4Search
  import opened Lz4Stream

  /** A fresh stream's call on the byte `x` and then `n` times `y`. */
  ghost predicate OneRun(j: Job, t: seq<nat>, n: nat, x: byte, y: byte) {
    && |t| >= j.TableSize() && (forall h :: 0 <= h < |t| ==> t[h] == 0)
    && j.startIndex == 0 && j.lowLimit == j.source && !j.dictSmall && j.iend == j.source + 1 + n <= |j.mem|
    && j.mem[j.source] == x && AllFrom(j, j.source + 1, y)
  }

  ghost predicate AllFrom(j: Job, from: nat, y: byte) {
    j.iend <= |j.mem| && forall p :: from <= p < j.iend ==> j.mem[p] == y
  }

  /** A match within the run goes on to the last five bytes, and nothing follows it. */
  lemma OneMatch(j: Job, t: seq<nat>, ip: nat, m: nat, y: byte, acc: nat)
    requires Room(j, t) && j.source <= m < ip && ip + MFLIMIT <= j.iend && acc >= 1 && AllFrom(j, m, y)
    ensures Match(j, j.source, ip, m).mlen == j.iend - LASTLITERALS - ip
    ensures Chain(j, t, j.source, ip, m, acc).ss == [Match(j, j.source, ip, m)]
  {
    CommonLengthIs(j.mem, m + MINMATCH, ip + MINMATCH, j.iend - LASTLITERALS, j.iend - LASTLITERALS - ip - MINMATCH);
  }

  /** The block of one such match. */
  lemma OneMatchSize(j: Job, s: Sequence)
    requires s.mlen >= MINMATCH && j.source + |s.lits| + s.mlen + LASTLITERALS == j.iend
    ensures BlockSize(j, [s]) == HeadSize(s) + (s.mlen - MINMATCH + 240) / 255 + 6
  {
    assert [s][1..] == [];
    assert Size([]) == 0 && Span([]) == 0;
  }

  /** Without a match the whole source is literals. */
  lemma NoMatchSize(j: Job, n: nat)
    requires j.iend == j.source + 1 + n
    ensures BlockSize(j, []) == n + 2 + (n + 241) / 255
  {
  }

  /** Too short for a match. */
  lemma ShortRun(j: Job, t: seq<nat>, n: nat, x: byte, y: byte, acc: nat)
    requires OneRun(j, t, n, x, y) && acc >= 1 && n < MFLIMIT
    ensures BlockSize(j, Greedy(j, t, acc).ss) <= n / 255 + 24
  {
    NoMatchSize(j, n);
  }

  /** The first probe compares with the first byte. */
  lemma FirstProbe(j: Job, t: seq<nat>, n: nat, x: byte, y: byte)
    requires OneRun(j, t, n, x, y) && n >= MFLIMIT
    ensures j.Recurs(0, j.source + 1) <==> x == y
  {
    var a, b := j.mem[j.source..j.source + 4], j.mem[j.source + 1..j.source + 5];
    assert a[0] == x && b[0] == y;
    if x == y { assert a == b; }
  }

  /** The second probe finds the first: both positions have the same slot, and the first was
      stored there. */
  lemma SecondProbe(j: Job, t: seq<nat>, n: nat, x: byte, y: byte)
    requires OneRun(j, t, n, x, y) && n >= MFLIMIT
    ensures var p := j.source + 2;
            j.Slot(p) == j.Slot(p - 1) && j.Recurs(t[j.Slot(p - 1) := j.Index(p - 1)][j.Slot(p)], p)
  {
    var p := j.source + 2;
    assert j.mem[p..p + 4] == j.mem[p - 1..p + 3];
    assert j.mem[p..p + 8] == j.mem[p - 1..p + 7];
  }

  /** All bytes are equal: the match begins at the second. */
  lemma PureRun(j: Job, t: seq<nat>, n: nat, y: byte, acc: nat)
    requires OneRun(j, t, n, y, y) && acc >= 1 && n >= MFLIMIT
    ensures BlockSize(j, Greedy(j, t, acc).ss) == 10 + (n + 231) / 255
  {
    hide Match, HeadSize;
    var p := j.source + 1;
    FirstProbe(j, t, n, y, y);
    ProbeIs(j, t, p, 1, acc * SKIP_TRIGGER);
    assert t[j.Slot(j.source) := j.startIndex] == t;
    var t' := t[j.Slot(p) := j.Index(p)];
    OneMatch(j, t', p, j.source, y, acc);
    MatchHead(j, p, j.source);
    OneMatchSize(j, Match(j, j.source, p, j.source));
  }

  lemma MatchHead(j: Job, ip: nat, m: nat)
    requires j.iend <= |j.mem| && j.source <= m < ip && ip + MFLIMIT <= j.iend && ip - j.source < 15
    ensures HeadSize(Match(j, j.source, ip, m)) == 3 + (ip - j.source)
  {
  }

  lemma FoundThird(j: Job, t: seq<nat>, n: nat, x: byte, y: byte, acc: nat)
    requires OneRun(j, t, n, x, y) && x != y && acc >= 1 && acc + MFLIMIT <= n
    ensures var r := Probe(j, t, j.source + 1, 1, acc * SKIP_TRIGGER); r.Found? && r.ip == j.source + 2 && r.match_ == j.source + 1
  {
    var p := j.source + 1;
    FirstProbe(j, t, n, x, y);
    SecondProbe(j, t, n, x, y);
    ProbeIs(j, t, p, 1, acc * SKIP_TRIGGER);
    ProbeIs(j, t[j.Slot(p) := j.Index(p)], p + 1, acc, acc * SKIP_TRIGGER + 1);
  }

  /** The first byte differs, and the search reaches the third. */
  lemma FoundRun(j: Job, t: seq<nat>, n: nat, x: byte, y: byte, acc: nat)
    requires OneRun(j, t, n, x, y) && x != y && acc >= 1 && acc + MFLIMIT <= n
    ensures BlockSize(j, Greedy(j, t, acc).ss) == 11 + (n + 230) / 255
  {
    hide Match, HeadSize, BlockSize, Probe, Chain;
    var p := j.source + 1;
    FoundThird(j, t, n, x, y, acc);
    assert t[j.Slot(j.source) := j.startIndex] == t;
    OneMatch(j, Probe(j, t, p, 1, acc * SKIP_TRIGGER).table, p + 1, p, y, acc);
    MatchHead(j, p + 1, p);
    OneMatchSize(j, Match(j, j.source, p + 1, p));
  }

  /** The first byte differs, and the acceleration steps over all that is left. */
  lemma MissedRun(j: Job, t: seq<nat>, n: nat, x: byte, y: byte, acc: nat)
    requires OneRun(j, t, n, x, y) && x != y && n >= MFLIMIT && acc + MFLIMIT > n
    ensures BlockSize(j, Greedy(j, t, acc).ss) == n + 2 + (n + 241) / 255
  {
    var p := j.source + 1;
    FirstProbe(j, t, n, x, y);
    assert t[j.Slot(j.source) := j.startIndex] == t;
    ProbeIs(j, t, p, 1, acc * SKIP_TRIGGER);
    ProbeIs(j, t[j.Slot(p) := j.Index(p)], p + 1, acc, acc * SKIP_TRIGGER + 1);
    NoMatchSize(j, n);
  }

  /** One byte and then `n` equal ones take at most `n / 255 + 24` bytes exactly when the first
      byte is no different, or the acceleration lets the search get to the third position, or
      there are few enough to be left as literals. */
  lemma RunLaw(j: Job, t: seq<nat>, n: nat, x: byte, y: byte, acc: nat)
    requires OneRun(j, t, n, x, y) && acc >= 1
    ensures BlockSize(j, Greedy(j, t, acc).ss) <= n / 255 + 24 <==> x == y || acc + MFLIMIT <= n || n <= 21
  {
    hide BlockSize, Greedy, OneRun;
    if n < MFLIMIT {
      ShortRun(j, t, n, x, y, acc);
    } else if x == y {
      PureRun(j, t, n, y, acc);
    } else if acc + MFLIMIT <= n {
      FoundRun(j, t, n, x, y, acc);
    } else {
      MissedRun(j, t, n, x, y, acc);
    }
  }

  /** A limited call of a fresh stream on such a source succeeds with that budget. */
  method CompressRun(x: byte, y: byte, n: nat, maxOutputSize: nat, acceleration: int, hash: seq<byte> -> nat)
    returns (compressed: nat, dst: array<byte>)
    requires n < MAX_INPUT_SIZE && maxOutputSize >= n / 255 + 24
    requires x == y || ClampAcceleration(acceleration) + MFLIMIT <= n || n <= 21
    ensures fresh(dst) && 0 < compressed <= dst.Length && compressed <= n / 255 + 24
    ensures IsBlock(dst[..compressed], [], [x] + seq(n, i => y), 0)
  {
    hide IsBlock, Greedy, BlockSize, IsOutput, OneRun;
    var source := [x] + seq(n, i => y);
    var state := new Stream();
    dst := new byte[maxOutputSize];
    ghost var j, t := state.JobOf(source, 0, n + 1, n + 1 < LIMIT_64K, false, false, hash), state.hashTable[..];
    FreshRun(j, t, n, x, y, state, source, hash);
    RunLaw(j, t, n, x, y, ClampAcceleration(acceleration));
    compressed := state.CompressFastExtState(source, 0, dst, n + 1, maxOutputSize, acceleration, hash);
    assert source[..0] == [] && source[0..0 + (n + 1)] == source;
  }

  lemma FreshRun(j: Job, t: seq<nat>, n: nat, x: byte, y: byte, state: Stream, source: seq<byte>, hash: seq<byte> -> nat)
    requires state.Valid() && state.currentOffset == 0 && source == [x] + seq(n, i => y) && t == state.hashTable[..]
    requires j == state.JobOf(source, 0, n + 1, n + 1 < LIMIT_64K, false, false, hash)
    ensures OneRun(j, t, n, x, y)
  {
  }
}
