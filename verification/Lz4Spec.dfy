/** What the LZ4 block decoders compute, as functions over byte sequences.

    `FromToken` is the value of LZ4_decompress_generic (lz/lz4.c:1948-2361) in full-block
    mode, exact in every accept, reject and error position. It knows nothing of the
    fast loop, of wild copies or of table-driven copies. `Plain` is the value of the
    byte-at-a-time decoder LZ4_decompress_unsafe_generic (lz/lz4.c:1806-1903). */
module Lz4Spec {
  import opened Bytes
  import opened Lz4Format

  /** Success with the memory up to the end of the output, or failure at an input index. */
  datatype Outcome = Decoded(mem: seq<byte>) | Malformed(at: nat)

  // ---------------------------------------------------------------- length bytes

  datatype Varlen = Length(n: nat, ip: nat) | Overrun(ip: nat)

  /** A length continues while its bytes are 255; it may not be read past `limit`. */
  function ReadVarlen(src: seq<byte>, ip: nat, limit: int, acc: nat): (r: Varlen)
    requires ip < |src| && limit < |src|
    ensures r.ip <= |src| && r.ip > ip
    ensures r.Length? ==> r.ip <= limit && r.n >= acc
    decreases |src| - ip
  {
    if ip + 1 > limit then Overrun(ip + 1)
    else if src[ip] == 255 then ReadVarlen(src, ip + 1, limit, acc + 255)
    else Length(acc + src[ip], ip + 1)
  }

  /** The literal length: its limit leaves room for the literals it announces. */
  function LiteralLength(src: seq<byte>, ip: nat, nibble: nat): (r: Varlen)
    requires ip <= |src|
    ensures ip <= r.ip <= |src|
  {
    if nibble != RUN_MASK then Length(nibble, ip)
    else if ip >= |src| - RUN_MASK then Overrun(ip)
    else ReadVarlen(src, ip, |src| - RUN_MASK, nibble)
  }

  function MatchLength(src: seq<byte>, ip: nat, nibble: nat): (r: Varlen)
    requires ip < |src|
    ensures ip <= r.ip <= |src|
    ensures r.Length? ==> r.ip < |src|
  {
    if nibble != ML_MASK then Length(nibble + MINMATCH, ip)
    else ReadVarlen(src, ip, |src| - LASTLITERALS + 1, nibble + MINMATCH)
  }

  // ---------------------------------------------------------------- the bounds-checked decoder

  /** Enough room on both sides that a short sequence skips the end-of-block checks. */
  predicate Roomy(src: seq<byte>, ip: nat, nibble: nat, op: nat, oend: nat) {
    nibble != RUN_MASK && ip + 17 <= |src| && op + 32 <= oend
  }

  /** Decode from a token at `ip` with `mem` as the memory written so far; matches may
      reach down to position `low` and the output must stay below position `oend`. */
  function FromToken(src: seq<byte>, ip: nat, mem: seq<byte>, low: nat, oend: nat): (r: Outcome)
    requires ip < |src|
    decreases |src| - ip, 0
  {
    var token := src[ip];
    if Roomy(src, ip + 1, token / 16, |mem|, oend) then
      FromOffset(src, token % 16, true, ip + 1 + token / 16, mem + src[ip + 1..ip + 1 + token / 16], low, oend)
    else
      match LiteralLength(src, ip + 1, token / 16)
      case Overrun(at) => Malformed(at)
      case Length(n, ip') => FromLiterals(src, token % 16, n, ip', mem, low, oend)
  }

  /** Decode from `n` literals at `ip`: the last run must end both buffers' use exactly. */
  function FromLiterals(src: seq<byte>, nibble: nat, n: nat, ip: nat, mem: seq<byte>, low: nat, oend: nat): (r: Outcome)
    requires ip <= |src|
    decreases |src| - ip, 3
  {
    if |mem| + n > oend - MFLIMIT || ip + n > |src| - (2 + 1 + LASTLITERALS) then
      if ip + n == |src| && |mem| + n <= oend then Decoded(mem + src[ip..]) else Malformed(ip)
    else
      FromOffset(src, nibble, false, ip + n, mem + src[ip..ip + n], low, oend)
  }

  /** Decode from the two offset bytes at `ip`. */
  function FromOffset(src: seq<byte>, nibble: nat, roomy: bool, ip: nat, mem: seq<byte>, low: nat, oend: nat): (r: Outcome)
    requires ip + 2 < |src|
    decreases |src| - ip, 2
  {
    var offset: nat := ReadLE16(src, ip);
    match MatchLength(src, ip + 2, nibble)
    case Overrun(at) => Malformed(at)
    case Length(n, ip') =>
      FromMatch(src, offset, n, roomy && nibble != ML_MASK && offset >= 8, ip', mem, low, oend)
  }

  /** Decode from a match of known offset and length. A `trusted` match is exempt from
      the rule that the last five bytes are literals. */
  function FromMatch(src: seq<byte>, offset: nat, n: nat, trusted: bool, ip: nat, mem: seq<byte>, low: nat, oend: nat): (r: Outcome)
    requires ip < |src|
    decreases |src| - ip, 1
  {
    if offset + low > |mem| then Malformed(ip)
    else if !trusted && |mem| + n > oend - LASTLITERALS then Malformed(ip)
    else FromToken(src, ip, CopyMatch(mem, offset, n), low, oend)
  }

  /** A token with room for its literals leads to the offset behind them. */
  lemma TokenToOffset(src: seq<byte>, ip: nat, n: nat, ip': nat, mem: seq<byte>, low: nat, oend: nat)
    requires ip < |src| && LiteralLength(src, ip + 1, src[ip] / 16) == Length(n, ip')
    requires ip' + n + 8 <= |src| && |mem| + n <= oend - MFLIMIT
    ensures FromToken(src, ip, mem, low, oend)
      == FromOffset(src, src[ip] % 16, Roomy(src, ip + 1, src[ip] / 16, |mem|, oend), ip' + n, mem + src[ip'..ip' + n], low, oend)
  {
    hide FromOffset, CopyMatch;
  }

  lemma OffsetToToken(src: seq<byte>, nibble: nat, roomy: bool, p: nat, m: nat, ip': nat, mem: seq<byte>, low: nat, oend: nat)
    requires p + 2 < |src| && MatchLength(src, p + 2, nibble) == Length(m + MINMATCH, ip')
    requires ReadLE16(src, p) + low <= |mem| && |mem| + m + MINMATCH <= oend - LASTLITERALS
    ensures FromOffset(src, nibble, roomy, p, mem, low, oend)
         == FromToken(src, ip', CopyMatch(mem, ReadLE16(src, p), m + MINMATCH), low, oend)
  {
    hide FromToken, CopyMatch, MatchLength, ReadLE16;
  }

  /** LZ4_decompress_generic with its special cases for empty buffers. */
  function Decompress(src: seq<byte>, mem: seq<byte>, low: nat, capacity: nat): (r: Outcome)
  {
    if capacity == 0 then
      if src == [0] then Decoded(mem) else Malformed(0)
    else if src == [] then Malformed(0)
    else FromToken(src, 0, mem, low, |mem| + capacity)
  }

  // ---------------------------------------------------------------- the plain decoder

  /** The plain decoder trusts its input: it may run out of input bytes (`Overread`) or
      meet a zero offset, whose copy leaves the output bytes unwritten (`Unwritten`). */
  datatype PlainOutcome = Finished(mem: seq<byte>, read: nat) | Refused | Overread | Unwritten

  function PlainLength(src: seq<byte>, ip: nat, acc: nat): (r: Varlen)
    requires ip <= |src|
    ensures ip <= r.ip <= |src|
    ensures r.Length? ==> r.ip > ip && r.n >= acc
    decreases |src| - ip
  {
    if ip == |src| then Overrun(ip)
    else if src[ip] == 255 then PlainLength(src, ip + 1, acc + 255)
    else Length(acc + src[ip], ip + 1)
  }

  function LengthAt(src: seq<byte>, ip: nat, nibble: nat): (r: Varlen)
    requires ip <= |src|
    ensures ip <= r.ip <= |src|
  {
    if nibble == 15 then PlainLength(src, ip, 15) else Length(nibble, ip)
  }

  function Plain(src: seq<byte>, ip: nat, mem: seq<byte>, low: nat, oend: nat): (r: PlainOutcome)
    requires ip <= |src| && |mem| <= oend
    decreases |src| - ip, 1
  {
    if ip == |src| then Overread
    else
      var token := src[ip];
      match LengthAt(src, ip + 1, token / 16)
      case Overrun(_) => Overread
      case Length(n, ip') =>
        if oend - |mem| < n then Refused
        else if ip' + n > |src| then Overread
        else if oend - |mem| - n >= MFLIMIT then
          PlainMatch(src, token % 16, ip' + n, mem + src[ip'..ip' + n], low, oend)
        else if oend == |mem| + n then Finished(mem + src[ip'..ip' + n], ip' + n)
        else Refused
  }

  function PlainMatch(src: seq<byte>, nibble: nat, ip: nat, mem: seq<byte>, low: nat, oend: nat): (r: PlainOutcome)
    requires ip <= |src| && |mem| <= oend
    decreases |src| - ip, 0
  {
    if ip + 2 > |src| then Overread
    else
      var offset: nat := ReadLE16(src, ip);
      match LengthAt(src, ip + 2, nibble)
      case Overrun(_) => Overread
      case Length(n, ip') =>
        if oend - |mem| < n + MINMATCH then Refused
        else if offset + low > |mem| then Refused
        else if oend - |mem| - n - MINMATCH < LASTLITERALS then Refused
        else if offset == 0 then Unwritten
        else Plain(src, ip', CopyMatch(mem, offset, n + MINMATCH), low, oend)
  }
}
