/** The LZ4 block format: constants, the overlapping match copy, and blocks as
    lists of sequences together with their byte encoding and their meaning. */
module Lz4Format {
  import opened Bytes

  const MINMATCH: nat := 4
  const LASTLITERALS: nat := 5
  const MFLIMIT: nat := 12
  const ML_MASK: nat := 15
  const RUN_MASK: nat := 15
  const DISTANCE_MAX: nat := 65535

  // ---------------------------------------------------------------- the match copy

  /** Append `n` bytes, each the byte `offset` places before the end at that moment.
      An offset larger than `n` is a plain copy; a smaller one repeats a pattern.
      Offset 0, which the format forbids, yields zero bytes (lz/lz4.c:482, 2329). */
  function CopyMatch(mem: seq<byte>, offset: nat, n: nat): (r: seq<byte>)
    requires offset <= |mem|
    ensures |r| == |mem| + n
    decreases n
  {
    if n == 0 then mem
    else
      var r := CopyMatch(mem, offset, n - 1);
      r + [if offset == 0 then 0 else r[|r| - offset]]
  }

  /** Shorter copies are prefixes of longer ones. */
  lemma {:induction false} CopyMatchPrefix(mem: seq<byte>, offset: nat, m: nat, n: nat)
    requires offset <= |mem| && m <= n
    ensures CopyMatch(mem, offset, n)[..|mem| + m] == CopyMatch(mem, offset, m)
    decreases n
  {
    if m < n {
      CopyMatchPrefix(mem, offset, m, n - 1);
    }
  }

  /** Every copied byte equals the byte `offset` places earlier; earlier bytes stay. */
  lemma {:induction false} CopyMatchAt(mem: seq<byte>, offset: nat, n: nat, k: nat)
    requires offset <= |mem| && k < |mem| + n
    ensures k < |mem| ==> CopyMatch(mem, offset, n)[k] == mem[k]
    ensures |mem| <= k && offset > 0 ==> CopyMatch(mem, offset, n)[k] == CopyMatch(mem, offset, n)[k - offset]
    ensures |mem| <= k && offset == 0 ==> CopyMatch(mem, offset, n)[k] == 0
    decreases n
  {
    if n > 0 && k < |mem| + n - 1 {
      CopyMatchAt(mem, offset, n - 1, k);
    }
  }

  /** Conversely, bytes already related at distance `offset` are what the copy yields. */
  lemma {:induction false} CopyMatchIs(all: seq<byte>, pos: nat, offset: nat, n: nat)
    requires 1 <= offset <= pos && pos + n <= |all|
    requires forall k :: pos <= k < pos + n ==> all[k] == all[k - offset]
    ensures CopyMatch(all[..pos], offset, n) == all[..pos + n]
    decreases n
  {
    if n > 0 {
      CopyMatchIs(all, pos, offset, n - 1);
      assert all[..pos + n] == all[..pos + n - 1] + [all[pos + n - 1]];
    }
  }

  // ---------------------------------------------------------------- sequences and their bytes

  /** One LZ4 sequence: a literal run, then a match of `mlen >= 4` bytes. */
  datatype Sequence = Sequence(lits: seq<byte>, offset: nat, mlen: nat)

  /** The bytes 255, 255, ..., r that follow a saturated token nibble. */
  function Run(n: nat): (r: seq<byte>)
    ensures |r| == n / 255 + 1
  {
    if n >= 255 then [255] + Run(n - 255) else [n]
  }

  /** Length bytes for a quantity whose low part sits in a token nibble. */
  function Ext(n: nat): (r: seq<byte>)
    ensures |r| == (n + 240) / 255
  {
    if n < 15 then [] else Run(n - 15)
  }

  function Nibble(n: nat): (r: nat)
    ensures r <= 15
  {
    if n < 15 then n else 15
  }

  /** A literal run with its token and length bytes; `low` is the token's low nibble. */
  function EncodeRun(lits: seq<byte>, low: nat): (r: seq<byte>)
    requires low <= 15
    ensures |r| == 1 + |Ext(|lits|)| + |lits|
  {
    [Nibble(|lits|) * 16 + low] + Ext(|lits|) + lits
  }

  function LE16(v: nat): (r: seq<byte>)
    requires v < 65536
    ensures |r| == 2
  {
    [v % 256, v / 256]
  }

  function ReadLE16(src: seq<byte>, ip: nat): (r: nat)
    requires ip + 2 <= |src|
    ensures r < 65536
  {
    src[ip] as int + src[ip + 1] as int * 256
  }

  predicate Encodable(s: Sequence) {
    1 <= s.offset <= DISTANCE_MAX && MINMATCH <= s.mlen
  }

  function Encode(s: Sequence): (r: seq<byte>)
    requires Encodable(s)
    ensures |r| == |EncodeRun(s.lits, Nibble(s.mlen - MINMATCH))| + 2 + |Ext(s.mlen - MINMATCH)|
  {
    EncodeRun(s.lits, Nibble(s.mlen - MINMATCH)) + LE16(s.offset) + Ext(s.mlen - MINMATCH)
  }

  predicate AllEncodable(ss: seq<Sequence>) {
    forall i :: 0 <= i < |ss| ==> Encodable(ss[i])
  }

  function EncodeAll(ss: seq<Sequence>): (r: seq<byte>)
    requires AllEncodable(ss)
  {
    if ss == [] then [] else Encode(ss[0]) + EncodeAll(ss[1..])
  }

  /** What a sequence does to the memory decoded so far (its offset being in range). */
  function Apply(mem: seq<byte>, s: Sequence): (r: seq<byte>)
    ensures s.offset <= |mem| + |s.lits| ==> |r| == |mem| + |s.lits| + s.mlen
  {
    if s.offset <= |mem| + |s.lits| then CopyMatch(mem + s.lits, s.offset, s.mlen) else mem
  }

  function ApplyAll(mem: seq<byte>, ss: seq<Sequence>): (r: seq<byte>)
    decreases |ss|
  {
    if ss == [] then mem else ApplyAll(Apply(mem, ss[0]), ss[1..])
  }

  /** The sequences may be applied one after another to `mem`: each offset stays at
      or above position `low`, each match starts at or before `lastStart` and ends at
      or before `lastEnd`. */
  predicate Placed(mem: seq<byte>, ss: seq<Sequence>, low: nat, lastStart: int, lastEnd: int)
    decreases |ss|
  {
    ss == []
    || (PlacedOne(mem, ss[0], low, lastStart, lastEnd) && Placed(Apply(mem, ss[0]), ss[1..], low, lastStart, lastEnd))
  }

  predicate PlacedOne(mem: seq<byte>, s: Sequence, low: nat, lastStart: int, lastEnd: int) {
    && Encodable(s)
    && s.offset + low <= |mem| + |s.lits| <= lastStart
    && |mem| + |s.lits| + s.mlen <= lastEnd
  }

  // ---------------------------------------------------------------- adding a sequence at the end

  lemma {:induction false} ApplyAllSnoc(mem: seq<byte>, ss: seq<Sequence>, s: Sequence)
    ensures ApplyAll(mem, ss + [s]) == Apply(ApplyAll(mem, ss), s)
    decreases |ss|
  {
    hide Apply;
    if ss == [] {
      assert ApplyAll(Apply(mem, s), []) == Apply(mem, s);
    } else {
      assert (ss + [s])[1..] == ss[1..] + [s];
      ApplyAllSnoc(Apply(mem, ss[0]), ss[1..], s);
    }
  }

  lemma {:induction false} PlacedSnoc(mem: seq<byte>, ss: seq<Sequence>, s: Sequence, low: nat,
                                      lastStart: int, lastEnd: int, lastStart': int, lastEnd': int)
    requires Placed(mem, ss, low, lastStart, lastEnd) && lastStart <= lastStart' && lastEnd <= lastEnd'
    requires PlacedOne(ApplyAll(mem, ss), s, low, lastStart', lastEnd')
    ensures Placed(mem, ss + [s], low, lastStart', lastEnd')
    decreases |ss|
  {
    hide Apply;
    if ss == [] {
      assert (ss + [s])[1..] == [];
    } else {
      assert (ss + [s])[1..] == ss[1..] + [s];
      PlacedSnoc(Apply(mem, ss[0]), ss[1..], s, low, lastStart, lastEnd, lastStart', lastEnd');
    }
  }

  lemma {:induction false} PlacedWeaken(mem: seq<byte>, ss: seq<Sequence>, low: nat,
                                        lastStart: int, lastEnd: int, lastStart': int, lastEnd': int)
    requires Placed(mem, ss, low, lastStart, lastEnd) && lastStart <= lastStart' && lastEnd <= lastEnd'
    ensures Placed(mem, ss, low, lastStart', lastEnd')
    decreases |ss|
  {
    hide Apply;
    if ss != [] { PlacedWeaken(Apply(mem, ss[0]), ss[1..], low, lastStart, lastEnd, lastStart', lastEnd'); }
  }

  lemma {:induction false} EncodeAllSnoc(ss: seq<Sequence>, s: Sequence)
    requires AllEncodable(ss) && Encodable(s)
    ensures AllEncodable(ss + [s]) && EncodeAll(ss + [s]) == EncodeAll(ss) + Encode(s)
    decreases |ss|
  {
    hide Encode, Encodable;
    var all := ss + [s];
    if ss == [] {
      assert all[1..] == [] && EncodeAll([]) == [];
    } else {
      assert all[1..] == ss[1..] + [s] && all[0] == ss[0];
      EncodeAllSnoc(ss[1..], s);
      assert Encode(ss[0]) + (EncodeAll(ss[1..]) + Encode(s)) == Encode(ss[0]) + EncodeAll(ss[1..]) + Encode(s);
    }
  }

  // ---------------------------------------------------------------- blocks

  /** `bytes` is a block for `content` following `mem`: some sequences and last literals
      that denote it, laid out as the end-of-block rules demand. */
  ghost predicate IsBlock(bytes: seq<byte>, mem: seq<byte>, content: seq<byte>, low: nat) {
    exists ss, last :: IsBlockOf(ss, last, bytes, mem, content, low)
  }

  predicate IsBlockOf(ss: seq<Sequence>, last: seq<byte>, bytes: seq<byte>, mem: seq<byte>, content: seq<byte>, low: nat) {
    && AllEncodable(ss) && bytes == EncodeAll(ss) + EncodeRun(last, 0)
    && Placed(mem, ss, low, |mem| + |content| - MFLIMIT, |mem| + |content| - LASTLITERALS)
    && (ss != [] ==> |last| >= LASTLITERALS)
    && ApplyAll(mem, ss) + last == mem + content
  }
}
