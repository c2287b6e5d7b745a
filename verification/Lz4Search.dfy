/** Finding matches: the hash table, the probe loop with its growing step, the backward
    catch-up, and the count of equal bytes (lz/lz4.c:643-678, 1008-1083, 1213-1271). */
module Lz4Search {
  import opened Bytes
  import opened Lz4Format

  const SKIP_TRIGGER: nat := 64  // 1 << LZ4_skipTrigger

  /** The constants of one call of the compressor. `mem` is the memory that holds the
      source, at `source..iend`, and what precedes it; a table entry `i` names position
      `i - startIndex + source`. The hash is any function of the bytes at a position. */
  datatype Job = Job(mem: seq<byte>, source: nat, iend: nat, startIndex: nat, lowLimit: nat,
                     prefixIdxLimit: int, dictSmall: bool, byU16: bool, hash: seq<byte> -> nat)
  {
    function Mflimit1(): int { iend - MFLIMIT + 1 }
    function Matchlimit(): int { iend - LASTLITERALS }

    function Index(p: nat): (i: nat)
      requires source <= p
    {
      p - source + startIndex
    }

    function Position(i: nat): int { i - startIndex + source }

    function TableSize(): (n: nat)
      ensures n > 0
    {
      if byU16 then 8192 else 4096
    }

    /** LZ4_hashPosition: four bytes are hashed for 16-bit tables, eight otherwise. */
    function Slot(p: nat): (h: nat)
      requires p + 8 <= |mem|
      ensures h < TableSize()
    {
      hash(if byU16 then mem[p..p + 4] else mem[p..p + 8]) % TableSize()
    }

    /** What makes every accepted table entry a readable position at or above lowLimit:
        entries below the prefix are refused by a test of the index, or by the distance
        limit, or there are none. */
    ghost predicate Legal() {
      && lowLimit <= source && source + 1 <= iend <= |mem|
      && (byU16 ==> Index(iend) <= 65535 + MFLIMIT)
      && (if dictSmall then Position0(prefixIdxLimit) == lowLimit
          else lowLimit + startIndex <= source || (!byU16 && lowLimit + DISTANCE_MAX <= source))
    }

    function Position0(i: int): int { i - startIndex + source }

    /** The tests a candidate passes before its bytes are looked at (lz/lz4.c:1063-1069). */
    predicate Acceptable(i: nat, current: nat) {
      && (dictSmall ==> i >= prefixIdxLimit)
      && (byU16 || i + DISTANCE_MAX >= current)
    }

    /** Entry `i` passes all tests at position `p`: its four bytes recur there. */
    predicate Recurs(i: nat, p: nat)
      requires source <= p
    {
      && Acceptable(i, Index(p)) && 0 <= Position(i) < p && p + 4 <= |mem|
      && mem[Position(i)..Position(i) + 4] == mem[p..p + 4]
    }

    lemma AcceptableSound(i: nat, p: nat)
      requires Legal() && source <= p <= iend - MFLIMIT && i < Index(p) && Acceptable(i, Index(p))
      ensures lowLimit <= Position(i) < p && p - Position(i) <= DISTANCE_MAX
    {
    }
  }

  /** Entries are below `bound`, and an entry inside the current source sits in the slot
      of its own position. */
  ghost predicate TableOk(j: Job, table: array<nat>, bound: nat)
    reads table
  {
    && j.TableSize() <= table.Length
    && forall h :: 0 <= h < table.Length ==> EntryOk(j, h, table[h], bound)
  }

  ghost predicate EntryOk(j: Job, h: nat, i: nat, bound: nat) {
    && i < bound
    && (i > j.startIndex ==> j.Position(i) + 8 <= |j.mem| && j.Slot(j.Position(i)) == h)
  }

  predicate Same4(mem: seq<byte>, a: nat, b: nat)
    requires a + 4 <= |mem| && b + 4 <= |mem|
  {
    mem[a..a + 4] == mem[b..b + 4]
  }

  /** From `b` on, `n` bytes are those found from `a` on, where `a` is not after `b`. */
  ghost predicate SameBytes(mem: seq<byte>, a: nat, b: nat, n: nat) {
    a <= b && b + n <= |mem| && forall p :: b <= p < b + n ==> mem[p] == mem[p - (b - a)]
  }

  method PutIndex(j: Job, table: array<nat>, p: nat, h: nat, ghost bound: nat)
    requires TableOk(j, table, bound) && j.source <= p && p + 8 <= |j.mem| && h == j.Slot(p) && j.Index(p) < bound
    requires j.byU16 ==> j.Index(p) < 65536
    modifies table
    ensures TableOk(j, table, bound) && table[..] == old(table[..])[h := j.Index(p)]
  {
    table[h] := j.Index(p);
  }

  lemma TableWeaken(j: Job, table: array<nat>, bound: nat, bound': nat)
    requires TableOk(j, table, bound) && bound <= bound'
    ensures TableOk(j, table, bound')
  {
    forall h | 0 <= h < table.Length ensures EntryOk(j, h, table[h], bound') {
      assert EntryOk(j, h, table[h], bound);
    }
  }

  // ---------------------------------------------------------------- what a search finds

  /** How a search ends, and the table then. */
  datatype Probed = Found(ip: nat, match_: nat, table: seq<nat>) | NotFound(table: seq<nat>)

  predicate Searchable(j: Job, t: seq<nat>, p: nat) {
    |t| >= j.TableSize() && j.iend <= |j.mem| && j.source <= p <= j.Mflimit1()
  }

  /** The search from `p` on, `step` being the next step and `nb` what makes it grow. */
  function Probe(j: Job, t: seq<nat>, p: nat, step: nat, nb: nat): (r: Probed)
    requires Searchable(j, t, p) && step >= 1 && nb >= SKIP_TRIGGER
    ensures |r.table| == |t| && (r.Found? ==> p <= r.ip < j.Mflimit1() && r.match_ < r.ip)
    decreases j.Mflimit1() - p
  {
    if p + step > j.Mflimit1() then NotFound(t)
    else
      var h, i := j.Slot(p), t[j.Slot(p)];
      var t' := t[h := j.Index(p)];
      if j.Recurs(i, p) then Found(p, j.Position(i), t') else Probe(j, t', p + step, nb / SKIP_TRIGGER, nb + 1)
  }

  /** The positions that a search may look at. */
  function Stops(j: Job, p: nat, step: nat, nb: nat): (ps: seq<nat>)
    requires step >= 1 && nb >= SKIP_TRIGGER
    ensures forall k :: 0 <= k < |ps| ==> p <= ps[k] < j.Mflimit1()
    decreases j.Mflimit1() - p
  {
    if p + step > j.Mflimit1() then [] else [p] + Stops(j, p + step, nb / SKIP_TRIGGER, nb + 1)
  }

  /** What slot `h` holds once the positions `ps` were stored: the last of them that belongs
      there, or what was there before. */
  function Stored(j: Job, t: seq<nat>, ps: seq<nat>, h: nat): (i: nat)
    requires |t| >= j.TableSize() && h < j.TableSize()
    requires forall k :: 0 <= k < |ps| ==> j.source <= ps[k] && ps[k] + 8 <= |j.mem|
  {
    if ps == [] then t[h]
    else
      var last := ps[|ps| - 1];
      if j.Slot(last) == h then j.Index(last) else Stored(j, t, ps[..|ps| - 1], h)
  }

  /** At the `k`-th stop, the position last stored in its slot recurs. */
  predicate Hits(j: Job, t: seq<nat>, ps: seq<nat>, k: nat)
    requires |t| >= j.TableSize() && k < |ps|
    requires forall k :: 0 <= k < |ps| ==> j.source <= ps[k] && ps[k] + 8 <= |j.mem|
  {
    j.Recurs(Stored(j, t, ps[..k], j.Slot(ps[k])), ps[k])
  }

  lemma {:induction false} StoredFirst(j: Job, t: seq<nat>, p: nat, ps: seq<nat>, h: nat)
    requires |t| >= j.TableSize() && h < j.TableSize() && j.source <= p && p + 8 <= |j.mem|
    requires forall k :: 0 <= k < |ps| ==> j.source <= ps[k] && ps[k] + 8 <= |j.mem|
    ensures Stored(j, t, [p] + ps, h) == Stored(j, t[j.Slot(p) := j.Index(p)], ps, h)
    decreases |ps|
  {
    if ps != [] {
      assert ([p] + ps)[..|ps|] == [p] + ps[..|ps| - 1];
      StoredFirst(j, t, p, ps[..|ps| - 1], h);
    } else {
      assert ([p] + ps)[..0] == [];
    }
  }

  lemma HitsLater(j: Job, t: seq<nat>, p: nat, ps: seq<nat>, k: nat)
    requires |t| >= j.TableSize() && j.source <= p && p + 8 <= |j.mem| && k < |ps|
    requires forall k :: 0 <= k < |ps| ==> j.source <= ps[k] && ps[k] + 8 <= |j.mem|
    ensures Hits(j, t, [p] + ps, k + 1) <==> Hits(j, t[j.Slot(p) := j.Index(p)], ps, k)
  {
    assert ([p] + ps)[..k + 1] == [p] + ps[..k];
    StoredFirst(j, t, p, ps[..k], j.Slot(ps[k]));
  }

  /** A search ends at the first stop that hits, and finds what was stored there last; it finds
      nothing only if no stop hits. Each stop looked at is remembered. */
  lemma {:induction false} ProbeExactly(j: Job, t: seq<nat>, p: nat, step: nat, nb: nat)
    requires Searchable(j, t, p) && step >= 1 && nb >= SKIP_TRIGGER
    ensures var r, ps := Probe(j, t, p, step, nb), Stops(j, p, step, nb);
            && (forall k :: 0 <= k < |ps| ==> j.source <= ps[k] && ps[k] + 8 <= |j.mem|)
            && (r.NotFound? <==> forall k :: 0 <= k < |ps| ==> !Hits(j, t, ps, k))
            && (r.NotFound? ==> forall h :: 0 <= h < j.TableSize() ==> r.table[h] == Stored(j, t, ps, h))
            && (r.Found? ==> exists k :: FirstHit(j, t, ps, k, r))
    decreases j.Mflimit1() - p
  {
    hide FirstHit, Hits, Stored, Probe, Stops;
    ProbeIs(j, t, p, step, nb);
    var r, ps := Probe(j, t, p, step, nb), Stops(j, p, step, nb);
    if p + step > j.Mflimit1() {
      NothingStored(j, t);
    } else {
      FirstStop(j, t, ps);
      if j.Recurs(t[j.Slot(p)], p) {
        HitAtOnce(j, t, ps, r);
      } else {
        var t', p', step', nb' := t[j.Slot(p) := j.Index(p)], p + step, nb / SKIP_TRIGGER, nb + 1;
        var ps' := Stops(j, p', step', nb');
        ProbeExactly(j, t', p', step', nb');
        forall k | 0 <= k < |ps'| ensures Hits(j, t, ps, k + 1) <==> Hits(j, t', ps', k) { HitsLater(j, t, p, ps', k); }
        if r.Found? {
          var k :| FirstHit(j, t', ps', k, r);
          FirstHitLater(j, t, p, ps', k, r);
        } else {
          forall k | 0 <= k < |ps| ensures !Hits(j, t, ps, k) { assert k > 0 ==> !Hits(j, t', ps', k - 1); }
          forall h | 0 <= h < j.TableSize() ensures r.table[h] == Stored(j, t, ps, h) { StoredFirst(j, t, p, ps', h); }
        }
      }
    }
  }

  lemma ProbeIs(j: Job, t: seq<nat>, p: nat, step: nat, nb: nat)
    requires Searchable(j, t, p) && step >= 1 && nb >= SKIP_TRIGGER
    ensures p + step > j.Mflimit1() ==> Probe(j, t, p, step, nb) == NotFound(t) && Stops(j, p, step, nb) == []
    ensures p + step <= j.Mflimit1() ==>
              var t' := t[j.Slot(p) := j.Index(p)];
              && Stops(j, p, step, nb) == [p] + Stops(j, p + step, nb / SKIP_TRIGGER, nb + 1)
              && Probe(j, t, p, step, nb) == if j.Recurs(t[j.Slot(p)], p) then Found(p, j.Position(t[j.Slot(p)]), t')
                                             else Probe(j, t', p + step, nb / SKIP_TRIGGER, nb + 1)
  {
  }

  lemma ProbeStep(j: Job, t: seq<nat>, p: nat, step: nat, nb: nat)
    requires Searchable(j, t, p) && step >= 1 && nb >= SKIP_TRIGGER
    ensures nb / SKIP_TRIGGER >= 1
    ensures Probe(j, t, p, step, nb) ==
              if p + step > j.Mflimit1() then NotFound(t)
              else if j.Recurs(t[j.Slot(p)], p) then Found(p, j.Position(t[j.Slot(p)]), t[j.Slot(p) := j.Index(p)])
              else Probe(j, t[j.Slot(p) := j.Index(p)], p + step, nb / SKIP_TRIGGER, nb + 1)
  {
  }

  lemma NothingStored(j: Job, t: seq<nat>)
    requires |t| >= j.TableSize()
    ensures forall h :: 0 <= h < j.TableSize() ==> t[h] == Stored(j, t, [], h)
  {
  }

  /** The first stop looks at the table as it was, and is remembered. */
  lemma FirstStop(j: Job, t: seq<nat>, ps: seq<nat>)
    requires |t| >= j.TableSize() && ps != [] && forall k :: 0 <= k < |ps| ==> j.source <= ps[k] && ps[k] + 8 <= |j.mem|
    ensures Hits(j, t, ps, 0) <==> j.Recurs(t[j.Slot(ps[0])], ps[0])
    ensures var t' := t[j.Slot(ps[0]) := j.Index(ps[0])];
            && Stored(j, t, ps[..0], j.Slot(ps[0])) == t[j.Slot(ps[0])]
            && forall h :: 0 <= h < j.TableSize() ==> t'[h] == Stored(j, t, ps[..1], h)
  {
    assert ps[..1][..0] == [] && ps[..0] == [];
  }

  lemma HitAtOnce(j: Job, t: seq<nat>, ps: seq<nat>, r: Probed)
    requires |t| >= j.TableSize() && ps != [] && forall k :: 0 <= k < |ps| ==> j.source <= ps[k] && ps[k] + 8 <= |j.mem|
    requires var i := t[j.Slot(ps[0])];
             j.Recurs(i, ps[0]) && r == Found(ps[0], j.Position(i), t[j.Slot(ps[0]) := j.Index(ps[0])])
    ensures FirstHit(j, t, ps, 0, r)
  {
    hide Hits, Stored;
    FirstStop(j, t, ps);
  }

  lemma FirstHitLater(j: Job, t: seq<nat>, p: nat, ps: seq<nat>, k: nat, r: Probed)
    requires |t| >= j.TableSize() && j.source <= p && p + 8 <= |j.mem|
    requires FirstHit(j, t[j.Slot(p) := j.Index(p)], ps, k, r) && !Hits(j, t, [p] + ps, 0)
    ensures FirstHit(j, t, [p] + ps, k + 1, r)
  {
    hide Hits, Stored;
    var t', all := t[j.Slot(p) := j.Index(p)], [p] + ps;
    HitsLater(j, t, p, ps, k);
    forall m | 0 <= m < k + 1 ensures !Hits(j, t, all, m) {
      if m > 0 { HitsLater(j, t, p, ps, m - 1); }
    }
    assert all[..k + 1] == [p] + ps[..k] && all[..k + 2] == [p] + ps[..k + 1];
    StoredFirst(j, t, p, ps[..k], j.Slot(ps[k]));
    forall h | 0 <= h < j.TableSize() ensures r.table[h] == Stored(j, t, all[..k + 2], h) { StoredFirst(j, t, p, ps[..k + 1], h); }
  }

  ghost predicate FirstHit(j: Job, t: seq<nat>, ps: seq<nat>, k: nat, r: Probed) {
    && |t| >= j.TableSize() && k < |ps| && (forall k :: 0 <= k < |ps| ==> j.source <= ps[k] && ps[k] + 8 <= |j.mem|)
    && r.Found? && r.ip == ps[k] && Hits(j, t, ps, k) && (forall m :: 0 <= m < k ==> !Hits(j, t, ps, m))
    && r.match_ == j.Position(Stored(j, t, ps[..k], j.Slot(ps[k])))
    && |r.table| == |t| && forall h :: 0 <= h < j.TableSize() ==> r.table[h] == Stored(j, t, ps[..k + 1], h)
  }

  /** The probe loop (lz/lz4.c:1011-1082). It stops at a position whose four bytes recur
      at an acceptable earlier one, or near the end of the source. */
  method FindMatch(j: Job, table: array<nat>, ip0: nat, forwardH0: nat, acceleration: nat)
    returns (found: bool, ip: nat, match_: nat)
    requires j.Legal() && j.source < ip0 <= j.Mflimit1() && acceleration >= 1
    requires forwardH0 == j.Slot(ip0) && TableOk(j, table, j.Index(ip0))
    modifies table
    ensures TableOk(j, table, j.Index(j.iend))
    ensures found ==>
              && ip0 <= ip < j.Mflimit1() && j.lowLimit <= match_ < ip && ip - match_ <= DISTANCE_MAX
              && Same4(j.mem, match_, ip) && TableOk(j, table, j.Index(ip) + 1)
    ensures Probe(j, old(table[..]), ip0, 1, acceleration * SKIP_TRIGGER) ==
              if found then Found(ip, match_, table[..]) else NotFound(table[..])
  {
    assert table.Length >= j.TableSize();
    hide TableOk, Probe;
    var forwardIp, forwardH := ip0, forwardH0;
    var step, searchMatchNb := 1, acceleration * SKIP_TRIGGER;
    ghost var goal := Probe(j, table[..], ip0, 1, acceleration * SKIP_TRIGGER);
    while true
      invariant ip0 <= forwardIp <= j.Mflimit1() && forwardH == j.Slot(forwardIp) && step >= 1
      invariant searchMatchNb >= SKIP_TRIGGER && table.Length >= j.TableSize()
      invariant TableOk(j, table, j.Index(forwardIp))
      invariant Probe(j, table[..], forwardIp, step, searchMatchNb) == goal
      decreases j.Mflimit1() - forwardIp
    {
      ProbeStep(j, table[..], forwardIp, step, searchMatchNb);
      var h := forwardH;
      var matchIndex := table[h];
      ip := forwardIp;
      forwardIp := forwardIp + step;
      step := searchMatchNb / SKIP_TRIGGER;
      searchMatchNb := searchMatchNb + 1;
      TableWeaken(j, table, j.Index(ip), j.Index(j.iend));
      if forwardIp > j.Mflimit1() { return false, ip, 0; }
      forwardH := j.Slot(forwardIp);
      found, match_ := StoreAndTest(j, table, ip, h, matchIndex);
      TableWeaken(j, table, j.Index(ip) + 1, j.Index(j.iend));
      if found { return; }
      TableWeaken(j, table, j.Index(ip) + 1, j.Index(forwardIp));
    }
  }

  /** Store the position and test what was in its slot (lz/lz4.c:1054-1080). */
  method StoreAndTest(j: Job, table: array<nat>, p: nat, h: nat, matchIndex: nat) returns (found: bool, match_: nat)
    requires j.Legal() && j.source <= p < j.Mflimit1() && TableOk(j, table, j.Index(p))
    requires h == j.Slot(p) && matchIndex == table[h]
    modifies table
    ensures TableOk(j, table, j.Index(p) + 1) && table[..] == old(table[..])[h := j.Index(p)]
    ensures found == j.Recurs(matchIndex, p) && (found ==> match_ == j.Position(matchIndex))
    ensures found ==> j.lowLimit <= match_ < p && p - match_ <= DISTANCE_MAX && Same4(j.mem, match_, p)
  {
    var current := j.Index(p);
    assert matchIndex < current by { assert EntryOk(j, h, table[h], current); }
    TableWeaken(j, table, current, current + 1);
    PutIndex(j, table, p, h, current + 1);
    found, match_ := false, 0;
    if j.dictSmall && matchIndex < j.prefixIdxLimit { return; }
    if !j.byU16 && matchIndex + DISTANCE_MAX < current { return; }
    j.AcceptableSound(matchIndex, p);
    match_ := j.Position(matchIndex);
    found := Same4(j.mem, match_, p);
  }

  lemma Same4Bytes(mem: seq<byte>, a: nat, b: nat)
    requires a <= b && b + 4 <= |mem| && Same4(mem, a, b)
    ensures SameBytes(mem, a, b, 4)
  {
    SameWord(mem, a, b, 4);
  }

  lemma SameBefore(mem: seq<byte>, a: nat, b: nat, n: nat)
    requires 0 < a <= b <= |mem| && SameBytes(mem, a, b, n) && mem[b - 1] == mem[a - 1]
    ensures SameBytes(mem, a - 1, b - 1, n + 1)
  {
  }

  /** Extend a match backwards over literals (lz/lz4.c:1085-1087). */
  method CatchUp(j: Job, ip0: nat, match0: nat, anchor: nat) returns (ip: nat, match_: nat)
    requires j.lowLimit <= match0 < ip0 && anchor <= ip0 && ip0 + 4 <= |j.mem| && Same4(j.mem, match0, ip0)
    ensures anchor <= ip <= ip0 && j.lowLimit <= match_ && ip - match_ == ip0 - match0
    ensures SameBytes(j.mem, match_, ip, ip0 - ip + 4)
    ensures ip == anchor || match_ == j.lowLimit || j.mem[ip - 1] != j.mem[match_ - 1]
  {
    hide SameBytes, Same4;
    ip, match_ := ip0, match0;
    Same4Bytes(j.mem, match_, ip);
    while ip > anchor && match_ > j.lowLimit && j.mem[ip - 1] == j.mem[match_ - 1]
      invariant anchor <= ip <= ip0 && j.lowLimit <= match_ && ip - match_ == ip0 - match0
      invariant SameBytes(j.mem, match_, ip, ip0 - ip + 4)
    {
      SameBefore(j.mem, match_, ip, ip0 - ip + 4);
      ip, match_ := ip - 1, match_ - 1;
    }
  }

  // ---------------------------------------------------------------- counting

  /** LZ4_NbCommonBytes on the difference of two words that differ: the number of equal
      bytes before the first different one. */
  method NbCommonBytes(mem: seq<byte>, a: nat, b: nat) returns (n: nat)
    requires a <= b && b + 8 <= |mem| && mem[a..a + 8] != mem[b..b + 8]
    ensures n < 8 && SameBytes(mem, a, b, n) && mem[a + n] != mem[b + n]
  {
    n := 0;
    while mem[a + n] == mem[b + n]
      invariant n < 8 && mem[a..a + n] == mem[b..b + n]
      decreases 8 - n
    {
      assert mem[a..a + n + 1] == mem[a..a + n] + [mem[a + n]];
      assert mem[b..b + n + 1] == mem[b..b + n] + [mem[b + n]];
      n := n + 1;
    }
    SameWord(mem, a, b, n);
  }

  ghost predicate DiffersWithin(mem: seq<byte>, a: nat, b: nat, n: nat) {
    a <= b && b + n <= |mem| && exists p :: b <= p < b + n && mem[p] != mem[p - (b - a)]
  }

  lemma DifferentWord(mem: seq<byte>, a: nat, b: nat, n: nat)
    requires a <= b && b + n <= |mem| && mem[a..a + n] != mem[b..b + n]
    ensures DiffersWithin(mem, a, b, n)
  {
    var x, y := mem[a..a + n], mem[b..b + n];
    var k :| 0 <= k < n && x[k] != y[k];
    assert mem[b + k] != mem[b + k - (b - a)];
  }

  lemma SameWord(mem: seq<byte>, a: nat, b: nat, n: nat)
    requires a <= b && b + n <= |mem| && mem[a..a + n] == mem[b..b + n]
    ensures SameBytes(mem, a, b, n)
  {
    var x, y := mem[a..a + n], mem[b..b + n];
    forall p | b <= p < b + n ensures mem[p] == mem[p - (b - a)] { assert x[p - b] == y[p - b]; }
  }

  lemma SameBytesSum(mem: seq<byte>, a: nat, b: nat, m: nat, n: nat)
    requires SameBytes(mem, a, b, m) && SameBytes(mem, a + m, b + m, n)
    ensures SameBytes(mem, a, b, m + n)
  {
  }

  /** LZ4_count (lz/lz4.c:652-678): how many bytes from `pIn`, below `pInLimit`, equal those
      from `pMatch`. Eight bytes a step, then four, two and one. */
  method Count(mem: seq<byte>, pIn0: nat, pMatch0: nat, pInLimit: nat) returns (n: nat)
    requires pMatch0 <= pIn0 <= pInLimit <= |mem|
    ensures pIn0 + n <= pInLimit && SameBytes(mem, pMatch0, pIn0, n)
    ensures pIn0 + n == pInLimit || mem[pIn0 + n] != mem[pMatch0 + n]
  {
    var pIn, pMatch := pIn0, pMatch0;
    while pIn + 7 < pInLimit
      invariant pIn - pIn0 == pMatch - pMatch0 && pIn0 <= pIn <= pInLimit
      invariant SameBytes(mem, pMatch0, pIn0, pIn - pIn0)
    {
      if mem[pMatch..pMatch + 8] != mem[pIn..pIn + 8] {
        var c := NbCommonBytes(mem, pMatch, pIn);
        SameBytesSum(mem, pMatch0, pIn0, pIn - pIn0, c);
        return pIn - pIn0 + c;
      }
      SameWord(mem, pMatch, pIn, 8);
      SameBytesSum(mem, pMatch0, pIn0, pIn - pIn0, 8);
      pIn, pMatch := pIn + 8, pMatch + 8;
    }
    n := CountTail(mem, pIn0, pMatch0, pIn, pMatch, pInLimit);
  }

  method CountTail(mem: seq<byte>, pIn0: nat, pMatch0: nat, pIn1: nat, pMatch1: nat, pInLimit: nat) returns (n: nat)
    requires pMatch0 <= pIn0 <= pIn1 <= pInLimit <= |mem| && pInLimit < pIn1 + 8
    requires pIn1 - pIn0 == pMatch1 - pMatch0 && SameBytes(mem, pMatch0, pIn0, pIn1 - pIn0)
    ensures pIn0 + n <= pInLimit && SameBytes(mem, pMatch0, pIn0, n)
    ensures pIn0 + n == pInLimit || mem[pIn0 + n] != mem[pMatch0 + n]
  {
    var pIn, pMatch := CountStep(mem, pIn0, pMatch0, pIn1, pMatch1, pInLimit, 4);
    pIn, pMatch := CountStep(mem, pIn0, pMatch0, pIn, pMatch, pInLimit, 2);
    if pIn < pInLimit && mem[pMatch] == mem[pIn] {
      pIn := pIn + 1;
    }
    n := pIn - pIn0;
  }

  /** Compare one word of four or two bytes. */
  method CountStep(mem: seq<byte>, ghost pIn0: nat, ghost pMatch0: nat, pIn1: nat, pMatch1: nat, pInLimit: nat, w: nat)
    returns (pIn: nat, pMatch: nat)
    requires pMatch0 <= pIn0 <= pIn1 <= pInLimit <= |mem| && (w == 4 || w == 2)
    requires pInLimit < pIn1 + 2 * w || DiffersWithin(mem, pMatch1, pIn1, 2 * w)
    requires pIn1 - pIn0 == pMatch1 - pMatch0 && SameBytes(mem, pMatch0, pIn0, pIn1 - pIn0)
    ensures pIn1 <= pIn <= pInLimit && pIn - pIn0 == pMatch - pMatch0 && SameBytes(mem, pMatch0, pIn0, pIn - pIn0)
    ensures pInLimit < pIn + w || DiffersWithin(mem, pMatch, pIn, w)
  {
    pIn, pMatch := pIn1, pMatch1;
    if pIn + w <= |mem| && mem[pMatch..pMatch + w] != mem[pIn..pIn + w] { DifferentWord(mem, pMatch, pIn, w); }
    if pIn + (w - 1) < pInLimit && mem[pMatch..pMatch + w] == mem[pIn..pIn + w] {
      SameWord(mem, pMatch, pIn, w);
      pIn, pMatch := pIn + w, pMatch + w;
    }
  }
}
