/** Writing sequences into the output buffer (lz/lz4.c:1089-1115, 1140-1147, 1182-1196,
    1275-1300). No method writes at or past index `lim`. */
module Lz4Emit {
  import opened Bytes
  import opened Lz4Format
  import opened Lz4Memory

  lemma {:induction false} RunFull(n: nat)
    ensures Run(n) == seq(n / 255, i => 255 as byte) + [n % 255]
  {
    if n >= 255 {
      RunFull(n - 255);
      assert seq(n / 255, i => 255 as byte) == [255 as byte] + seq((n - 255) / 255, i => 255 as byte);
    }
  }

  /** Length bytes, one at a time (lz/lz4.c:1106-1107). */
  method EmitRun(dst: array<byte>, op0: nat, n: nat, ghost lim: nat) returns (op: nat)
    requires op0 + |Run(n)| <= lim <= dst.Length
    modifies dst
    ensures op == op0 + |Run(n)| && dst[..op] == old(dst[..op0]) + Run(n) && UntouchedFrom(dst, lim)
  {
    op := op0;
    var len := n;
    while len >= 255
      invariant 0 <= len && op0 <= op && op + |Run(len)| == op0 + |Run(n)|
      invariant dst[..op] + Run(len) == old(dst[..op0]) + Run(n)
      invariant UntouchedFrom(dst, lim)
    {
      ghost var sofar := dst[..op];
      assert sofar + Run(len) == (sofar + [255]) + Run(len - 255);
      dst[op] := 255;
      assert dst[..op + 1] == sofar + [255];
      op, len := op + 1, len - 255;
    }
    ghost var sofar := dst[..op];
    dst[op] := len;
    assert dst[..op + 1] == sofar + [len];
    op := op + 1;
  }

  /** LZ4_write32(op, 0xFFFFFFFF). */
  method WriteFF4(dst: array<byte>, op: nat, ghost lim: nat)
    requires op + 4 <= lim <= dst.Length
    modifies dst
    ensures dst[..op] == old(dst[..op]) && UntouchedFrom(dst, lim)
    ensures forall i :: op <= i < op + 4 ==> dst[i] == 255
  {
    dst[op], dst[op + 1], dst[op + 2], dst[op + 3] := 255, 255, 255, 255;
  }

  /** The same bytes, four at a time and overshooting (lz/lz4.c:1184-1193). */
  method EmitRun4(dst: array<byte>, op0: nat, n: nat, ghost lim: nat) returns (op: nat)
    requires op0 + |Run(n)| + 3 <= lim <= dst.Length
    modifies dst
    ensures op == op0 + |Run(n)| && dst[..op] == old(dst[..op0]) + Run(n) && UntouchedFrom(dst, lim)
  {
    op := op0;
    var matchCode := n;
    WriteFF4(dst, op, lim);
    while matchCode >= 4 * 255
      invariant 0 <= matchCode && op0 <= op && op + |Run(matchCode)| == op0 + |Run(n)|
      invariant dst[..op] + Run(matchCode) == old(dst[..op0]) + Run(n)
      invariant forall i :: op <= i < op + 4 ==> dst[i] == 255
      invariant UntouchedFrom(dst, lim)
    {
      ghost var sofar := dst[..op];
      Run4(matchCode);
      assert dst[..op + 4] == sofar + [255, 255, 255, 255];
      assert sofar + Run(matchCode) == (sofar + [255, 255, 255, 255]) + Run(matchCode - 1020);
      op := op + 4;
      WriteFF4(dst, op, lim);
      matchCode := matchCode - 4 * 255;
    }
    op := EmitRunEnd(dst, op, matchCode, lim);
  }

  /** The last, at most three, 255s are written already. */
  method EmitRunEnd(dst: array<byte>, op0: nat, matchCode: nat, ghost lim: nat) returns (op: nat)
    requires matchCode < 1020 && op0 + 4 <= lim <= dst.Length
    requires forall i :: op0 <= i < op0 + 4 ==> dst[i] == 255
    modifies dst
    ensures op == op0 + |Run(matchCode)| && dst[..op] == old(dst[..op0]) + Run(matchCode) && UntouchedFrom(dst, lim)
  {
    RunFull(matchCode);
    op := op0 + matchCode / 255;
    dst[op] := matchCode % 255;
    op := op + 1;
  }

  lemma Run4(n: nat)
    requires n >= 1020
    ensures Run(n) == [255, 255, 255, 255] + Run(n - 1020)
  {
    assert Run(n) == [255] + Run(n - 255);
    assert Run(n - 255) == [255] + Run(n - 510);
    assert Run(n - 510) == [255] + Run(n - 765);
    assert Run(n - 765) == [255] + Run(n - 1020);
  }

  /** A token for `n` literals and its length bytes. */
  method EmitHead(dst: array<byte>, op0: nat, n: nat, ghost lim: nat) returns (op: nat)
    requires op0 + 1 + |Ext(n)| <= lim <= dst.Length
    modifies dst
    ensures op == op0 + 1 + |Ext(n)| && dst[..op] == old(dst[..op0]) + ([Nibble(n) * 16] + Ext(n))
    ensures UntouchedFrom(dst, lim)
  {
    hide Run;
    var token := op0;
    ghost var out := dst[..op0];
    op := op0 + 1;
    if n >= RUN_MASK {
      dst[token] := RUN_MASK * 16;
      assert dst[..op] == out + [240];
      op := EmitRun(dst, op, n - RUN_MASK, lim);
    } else {
      dst[token] := n * 16;
      assert dst[..op] == out + [n * 16];
    }
  }

  /** A token, its literal length and its literals; the literals in 8-byte strides. */
  method EmitLiterals(mem: seq<byte>, anchor: nat, litLength: nat, dst: array<byte>, op0: nat, ghost lim: nat)
    returns (op: nat)
    requires anchor + litLength + 8 <= |mem|
    requires op0 + 1 + |Ext(litLength)| + 8 <= lim && op0 + 1 + |Ext(litLength)| + litLength + 7 <= lim <= dst.Length
    modifies dst
    ensures op == op0 + 1 + |Ext(litLength)| + litLength
    ensures dst[..op] == old(dst[..op0]) + EncodeRun(mem[anchor..anchor + litLength], 0)
    ensures UntouchedFrom(dst, lim)
  {
    hide Ext;
    ghost var out, lits := dst[..op0], mem[anchor..anchor + litLength];
    op := EmitHead(dst, op0, litLength, lim);
    ghost var head := dst[..op];
    CopyLiterals8(mem, dst, anchor, op, litLength, lim);
    op := op + litLength;
    assert head + lits == out + EncodeRun(lits, 0);
  }

  /** The last run is copied exactly (lz/lz4.c:1293-1303). */
  method EmitLast(mem: seq<byte>, anchor: nat, lastRun: nat, dst: array<byte>, op0: nat, ghost lim: nat)
    returns (op: nat)
    requires anchor + lastRun <= |mem| && op0 + 1 + |Ext(lastRun)| + lastRun <= lim <= dst.Length
    modifies dst
    ensures op == op0 + 1 + |Ext(lastRun)| + lastRun
    ensures dst[..op] == old(dst[..op0]) + EncodeRun(mem[anchor..anchor + lastRun], 0)
    ensures UntouchedFrom(dst, lim)
  {
    hide Ext;
    ghost var out, lits := dst[..op0], mem[anchor..anchor + lastRun];
    op := EmitHead(dst, op0, lastRun, lim);
    ghost var head := dst[..op];
    forall i | 0 <= i < lastRun { dst[op + i] := mem[anchor + i]; }
    assert dst[..op + lastRun] == head + lits;
    op := op + lastRun;
    assert head + lits == out + EncodeRun(lits, 0);
  }

  /** Offset and match length, completing the token at index `token`. */
  method EmitMatch(dst: array<byte>, token: nat, op0: nat, offset: nat, matchCode: nat, ghost out: seq<byte>,
                   ghost lits: seq<byte>, ghost lim: nat) returns (op: nat)
    requires 1 <= offset <= DISTANCE_MAX && token == |out| < op0
    requires op0 <= dst.Length && dst[..op0] == out + EncodeRun(lits, 0)
    requires op0 + 2 + |Ext(matchCode)| + 3 <= lim <= dst.Length
    modifies dst
    ensures op == op0 + 2 + |Ext(matchCode)|
    ensures dst[..op] == out + Encode(Sequence(lits, offset, matchCode + MINMATCH))
    ensures UntouchedFrom(dst, lim)
  {
    hide Run;
    ghost var body := EmitOffset(dst, token, op0, offset, matchCode, out, lits, lim);
    op := op0 + 2;
    if matchCode >= ML_MASK {
      op := EmitRun4(dst, op, matchCode - ML_MASK, lim);
    }
    assert out + body + Ext(matchCode) == out + (body + Ext(matchCode));
  }

  method EmitOffset(dst: array<byte>, token: nat, op: nat, offset: nat, matchCode: nat, ghost out: seq<byte>,
                    ghost lits: seq<byte>, ghost lim: nat) returns (ghost body: seq<byte>)
    requires 1 <= offset <= DISTANCE_MAX && token == |out| < op
    requires op + 2 <= lim <= dst.Length && dst[..op] == out + EncodeRun(lits, 0)
    modifies dst
    ensures body == EncodeRun(lits, Nibble(matchCode)) + LE16(offset) && dst[..op + 2] == out + body
    ensures UntouchedFrom(dst, lim)
  {
    hide Ext;
    assert dst[..op][token] == Nibble(|lits|) * 16;
    ghost var before := dst[..op];
    dst[op], dst[op + 1] := offset % 256, offset / 256;
    dst[token] := dst[token] + (if matchCode >= ML_MASK then ML_MASK else matchCode);
    TokenUpdate(out, lits, Nibble(matchCode), offset, before, dst[..op + 2]);
    body := EncodeRun(lits, Nibble(matchCode)) + LE16(offset);
  }

  lemma TokenUpdate(out: seq<byte>, lits: seq<byte>, nib: nat, offset: nat, before: seq<byte>, now: seq<byte>)
    requires nib <= 15 && offset < 65536 && before == out + EncodeRun(lits, 0) && |now| == |before| + 2
    requires now[|before|] == offset % 256 && now[|before| + 1] == offset / 256
    requires now[|out|] == before[|out|] + nib
    requires forall i :: 0 <= i < |before| && i != |out| ==> now[i] == before[i]
    ensures now == out + (EncodeRun(lits, nib) + LE16(offset))
  {
    hide Ext;
    var w := out + EncodeRun(lits, nib);
    forall i | 0 <= i < |before| ensures now[i] == w[i] {
      if i < |out| { assert before[i] == out[i]; }
      else { assert before[i] == EncodeRun(lits, 0)[i - |out|]; }
    }
    assert now == w + LE16(offset);
    assert w + LE16(offset) == out + (EncodeRun(lits, nib) + LE16(offset));
  }
}
