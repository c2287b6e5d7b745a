/** The decompression entry points and the round trips they complete: single blocks,
    blocks cut to a target size, and linked blocks of a stream. */
module Lz4RoundTrip {
  import opened Bytes
  import Lz4Compressor
  import opened Lz4Decoder
  import opened Lz4Format
  import opened Lz4Spec
  import opened Lz4Stream
  import opened Lz4Theorems

  // ---------------------------------------------------------------- moving history about

  lemma Moves(p: seq<byte>, q: seq<byte>, r: seq<byte>, last: seq<byte>, h: seq<byte>, content: seq<byte>)
    requires p + r + last == p + h + content
    ensures q + r + last == q + h + content
  {
    assert p + r + last == p + (r + last) && p + h + content == p + (h + content);
    assert (p + (r + last))[|p|..] == r + last && (p + (h + content))[|p|..] == h + content;
    assert q + r + last == q + (r + last) && q + h + content == q + (h + content);
  }

  /** A block does not depend on memory below its floor: history may be moved. */
  lemma Rebase(bytes: seq<byte>, p: seq<byte>, q: seq<byte>, h: seq<byte>, content: seq<byte>)
    requires IsBlock(bytes, p + h, content, |p|)
    ensures IsBlock(bytes, q + h, content, |q|)
  {
    hide EncodeAll, EncodeRun, ApplyAll, Placed;
    var ss, last :| IsBlockOf(ss, last, bytes, p + h, content, |p|);
    var d := |q| - |p|;
    var ls, le := |p + h| + |content| - MFLIMIT, |p + h| + |content| - LASTLITERALS;
    var r := RebaseAll(p, q, h, ss, ls, le);
    Moves(p, q, r, last, h, content);
    assert IsBlockOf(ss, last, bytes, q + h, content, |q|);
  }

  lemma {:induction false} RebaseAll(p: seq<byte>, q: seq<byte>, h: seq<byte>, ss: seq<Sequence>, ls: int, le: int)
    returns (r: seq<byte>)
    requires Placed(p + h, ss, |p|, ls, le)
    ensures ApplyAll(p + h, ss) == p + r && ApplyAll(q + h, ss) == q + r
    ensures Placed(q + h, ss, |q|, ls + |q| - |p|, le + |q| - |p|)
    decreases |ss|
  {
    if ss == [] {
      r := h;
    } else {
      var h' := RebaseOne(p, q, h, ss[0]);
      r := RebaseAll(p, q, h', ss[1..], ls, le);
    }
  }

  lemma RebaseOne(p: seq<byte>, q: seq<byte>, h: seq<byte>, s: Sequence) returns (h': seq<byte>)
    requires s.offset <= |h| + |s.lits|
    ensures Apply(p + h, s) == p + h' && Apply(q + h, s) == q + h'
  {
    assert p + h + s.lits == p + (h + s.lits) && q + h + s.lits == q + (h + s.lits);
    RebaseCopy(p, h + s.lits, s.offset, s.mlen);
    RebaseCopy(q, h + s.lits, s.offset, s.mlen);
    h' := CopyMatch(h + s.lits, s.offset, s.mlen);
  }

  lemma {:induction false} RebaseCopy(p: seq<byte>, h: seq<byte>, offset: nat, n: nat)
    requires offset <= |h|
    ensures CopyMatch(p + h, offset, n) == p + CopyMatch(h, offset, n)
    decreases n
  {
    if n > 0 { RebaseCopy(p, h, offset, n - 1); }
  }

  /** Offsets have two bytes, so a floor 64 KB back forbids none. */
  lemma RaiseFloor(bytes: seq<byte>, mem: seq<byte>, content: seq<byte>, low: nat)
    requires IsBlock(bytes, mem, content, low)
    ensures forall low' :: low <= low' && low' + 65535 <= |mem| ==> IsBlock(bytes, mem, content, low')
  {
    hide EncodeAll, EncodeRun, ApplyAll, Placed;
    var ss, last :| IsBlockOf(ss, last, bytes, mem, content, low);
    forall low': nat | low <= low' && low' + 65535 <= |mem| ensures IsBlock(bytes, mem, content, low') {
      PlacedRaise(mem, ss, low, low', |mem| + |content| - MFLIMIT, |mem| + |content| - LASTLITERALS);
      assert IsBlockOf(ss, last, bytes, mem, content, low');
    }
  }

  lemma {:induction false} PlacedRaise(mem: seq<byte>, ss: seq<Sequence>, low: nat, low': nat, ls: int, le: int)
    requires Placed(mem, ss, low, ls, le) && low' + 65535 <= |mem|
    ensures Placed(mem, ss, low', ls, le)
    decreases |ss|
  {
    if ss != [] { PlacedRaise(Apply(mem, ss[0]), ss[1..], low, low', ls, le); }
  }

  // ---------------------------------------------------------------- single blocks

  /** LZ4_decompress_safe (lz/lz4.c:2373-2378). */
  method DecompressSafe(src: seq<byte>, dst: array<byte>, dest: nat, maxDecompressedSize: int) returns (result: int)
    requires maxDecompressedSize >= 0 ==> dest + maxDecompressedSize <= dst.Length
    modifies dst
    ensures maxDecompressedSize < 0 ==> result == -1
    ensures maxDecompressedSize >= 0 ==>
              match Decompress(src, old(dst[..dest]), dest, maxDecompressedSize)
              case Malformed(at) => result == -1 - (at as int)
              case Decoded(mem) => 0 <= result <= maxDecompressedSize && dst[..dest + result] == mem
    ensures dest <= dst.Length ==> dst[..dest] == old(dst[..dest])
  {
    result := DecompressGeneric(src, dst, dest, maxDecompressedSize, dest, false);
  }

  /** Whatever a compression entry point produced, the decoder turns back into the source:
      it returns the source's size and writes exactly the source. */
  method DecompressCompressed(bytes: seq<byte>, mem: seq<byte>, source: nat, size: nat, dst: array<byte>, dest: nat,
                              capacity: nat) returns (result: int)
    requires source + size <= |mem| && size <= capacity && dest + capacity <= dst.Length
    requires IsBlock(bytes, mem[..source], mem[source..source + size], source)
    modifies dst
    ensures result == size && dst[dest..dest + size] == mem[source..source + size]
    ensures dst[..dest] == old(dst[..dest])
  {
    hide IsBlock, Decompress;
    ghost var content := mem[source..source + size];
    assert mem[..source] + [] == mem[..source] && dst[..dest] + [] == dst[..dest];
    Rebase(bytes, mem[..source], dst[..dest], [], content);
    BlockDecodes(bytes, dst[..dest], content, dest, capacity);
    ghost var before := dst[..dest];
    result := DecompressSafe(bytes, dst, dest, capacity);
    assert dst[..dest + result] == before + content;
    assert |before + content| == dest + size;
    assert dst[dest..dest + size] == dst[..dest + result][dest..];
  }

  /** The round trip of LZ4_compress_fast and LZ4_decompress_safe, as one program: for
      every source, budget, acceleration and hash, if compression succeeds then decoding
      gives the source back; with the documented bound as budget it succeeds. */
  method CompressThenDecompress(source: seq<byte>, maxOutputSize: nat, acceleration: int, hash: seq<byte> -> nat)
    returns (compressed: nat, decoded: int, output: array<byte>)
    ensures |source| <= MAX_INPUT_SIZE && maxOutputSize >= Lz4Compressor.CompressBound(|source|) ==> compressed > 0
    ensures compressed <= maxOutputSize
    ensures compressed > 0 ==> decoded == |source| && output[..] == source
  {
    hide IsBlock, Lz4Compressor.CompressBound;
    var state := new Stream();
    var dst := new byte[maxOutputSize](_ => 0);
    output := new byte[|source|](_ => 0);
    compressed := state.CompressFastExtState(source, 0, dst, |source|, maxOutputSize, acceleration, hash);
    decoded := 0;
    if compressed > 0 {
      decoded := DecompressCompressed(dst[..compressed], source, 0, |source|, output, 0, |source|);
      assert output[..] == output[0..|source|] && source[0..|source|] == source;
    }
  }

  /** LZ4_compress_destSize followed by decoding with the consumed size as capacity gives
      exactly the consumed prefix, for every target size of at least one byte. */
  method CompressDestSizeThenDecompress(source: seq<byte>, target: nat, hash: seq<byte> -> nat)
    returns (compressed: nat, consumed: int, output: array<byte>)
    requires |source| <= MAX_INPUT_SIZE && target >= 1
    ensures 0 < compressed <= target && 0 <= consumed <= |source|
    ensures output[..] == source[..consumed]
  {
    hide IsBlock;
    var state := new Stream();
    var dst := new byte[target](_ => 0);
    compressed, consumed := state.CompressDestSizeExtState(source, 0, dst, |source|, target, hash);
    output := new byte[consumed](_ => 0);
    var decoded := DecompressCompressed(dst[..compressed], source, 0, consumed, output, 0, consumed);
    assert output[..] == output[0..consumed] && source[0..0 + consumed] == source[..consumed];
  }
}
