/** Linked blocks: every block may refer back into the blocks before it
    (lz/lz4.c:1644-1688 against lz/lz4.c:2553-2590), laid out one after another. */
module Lz4Streaming {
  import opened Bytes
  import Lz4Compressor
  import opened Lz4Decoder
  import opened Lz4Format
  import opened Lz4Spec
  import opened Lz4Stream
  import opened Lz4Theorems
  import R = Lz4RoundTrip

  /** LZ4_streamDecode_t_internal without external dictionary. */
  class StreamDecode {
    var prefixSize: nat
    var prefixEnd: nat

    constructor ()
      ensures prefixSize == 0
    {
      prefixSize, prefixEnd := 0, 0;
    }

    /** Where the decoder lets matches begin when it decodes at index `dest`. */
    ghost function Floor(dest: nat): (low: nat)
      requires prefixSize <= dest
      reads this
      ensures low <= dest - prefixSize || low + 65535 <= dest
    {
      if prefixSize >= KB64 - 1 then Low(dest - KB64) else dest - prefixSize
    }

    /** LZ4_decompress_safe_continue when decoding goes on where it stopped. */
    method DecompressSafeContinue(src: seq<byte>, dst: array<byte>, dest: nat, maxOutputSize: nat) returns (result: int)
      requires prefixSize == 0 || (prefixEnd == dest && prefixSize <= dest)
      requires dest + maxOutputSize <= dst.Length
      modifies this, dst
      ensures match Decompress(src, old(dst[..dest]), old(Floor(dest)), maxOutputSize)
              case Malformed(at) => result == -1 - (at as int)
              case Decoded(mem) => 0 <= result <= maxOutputSize && dst[..dest + result] == mem
      ensures result > 0 ==> prefixSize == old(prefixSize) + result && prefixEnd == dest + result
      ensures result <= 0 ==> prefixSize == old(prefixSize) && prefixEnd == old(prefixEnd)
      ensures dst[..dest] == old(dst[..dest])
    {
      hide Decompress;
      if prefixSize == 0 {
        result := R.DecompressSafe(src, dst, dest, maxOutputSize);
        if result <= 0 { return; }
        prefixSize := result;
        prefixEnd := dest + result;
      } else {
        if prefixSize >= KB64 - 1 {
          result := DecompressGeneric(src, dst, dest, maxOutputSize, dest - KB64, true);
        } else {
          result := DecompressGeneric(src, dst, dest, maxOutputSize, dest - prefixSize, false);
        }
        if result <= 0 { return; }
        prefixSize := prefixSize + result;
        prefixEnd := prefixEnd + result;
      }
    }
  }

  /** The decoder has, in front of `dest`, the memory from `first` up to `source`. */
  ghost predicate DecoderHas(dec: StreamDecode, mem: seq<byte>, first: nat, source: nat, dst: array<byte>, dest: nat)
    reads dec, dst
  {
    && first <= source <= |mem| && source - first <= dest <= dst.Length
    && dec.prefixSize == source - first && (dec.prefixSize == 0 || dec.prefixEnd == dest)
    && dst[dest - (source - first)..dest] == mem[first..source]
  }

  /** Encoder and decoder agree on the history: the memory from `first` up to `source` on
      one side, the output up to `dest` on the other. */
  ghost predicate Linked(enc: Stream, dec: StreamDecode, mem: seq<byte>, first: nat, source: nat,
                         dst: array<byte>, dest: nat)
    reads enc, enc.hashTable, dec, dst
  {
    && DecoderHas(dec, mem, first, source, dst, dest)
    && enc.Valid() && enc.dictSize <= source - first
    && (enc.dictSize == 0 || enc.dictionary + enc.dictSize == source)
  }

  /** A block that the encoder made from its history is decoded by the decoder from its
      own, whichever parts of that history the two may use. */
  lemma LinkedBlockDecodes(bytes: seq<byte>, mem: seq<byte>, first: nat, source: nat, end: nat, encFloor: nat,
                           out: seq<byte>, decFloor: nat)
    requires first <= encFloor <= source <= end <= |mem| && source - first <= |out|
    requires IsBlock(bytes, mem[..source], mem[source..end], encFloor)
    requires out[|out| - (source - first)..] == mem[first..source]
    requires decFloor <= |out| - (source - first) || decFloor + 65535 <= |out|
    ensures Decompress(bytes, out, decFloor, end - source) == Decoded(out + mem[source..end])
  {
    hide IsBlock, Decompress;
    var p, q, h := mem[..first], out[..|out| - (source - first)], mem[first..source];
    assert mem[..source] == p + h && out == q + h;
    LowerFloor(bytes, p + h, mem[source..end], encFloor, |p|);
    R.Rebase(bytes, p, q, h, mem[source..end]);
    if decFloor <= |q| {
      LowerFloor(bytes, out, mem[source..end], |q|, decFloor);
    } else {
      R.RaiseFloor(bytes, out, mem[source..end], |q|);
    }
    BlockDecodes(bytes, out, mem[source..end], decFloor, end - source);
  }

  /** One linked block: compressing and decoding it reproduces it and keeps the two sides
      in agreement. With the documented bound as budget it cannot fail. */
  method LinkedBlock(enc: Stream, dec: StreamDecode, mem: seq<byte>, ghost first: nat, source: nat, size: nat,
                     dst: array<byte>, dest: nat, budget: nat, acceleration: int, hash: seq<byte> -> nat)
    returns (compressed: nat)
    requires Linked(enc, dec, mem, first, source, dst, dest) && enc.hashTable as object != dst
    requires 1 <= size <= MAX_INPUT_SIZE && source + size <= |mem| && dest + size <= dst.Length
    modifies enc, enc.hashTable, dec, dst
    ensures budget >= Lz4Compressor.CompressBound(size) ==> compressed > 0
    ensures compressed > 0 ==> Linked(enc, dec, mem, first, source + size, dst, dest + size)
    ensures dst[..dest] == old(dst[..dest])
  {
    hide IsBlock, Decompress, Lz4Compressor.CompressBound, WithinBudget;
    var buffer := new byte[budget](_ => 0);
    ghost var floor := source - enc.dictSize;
    compressed := enc.CompressFastContinue(mem, source, buffer, size, budget, acceleration, hash);
    if compressed == 0 { return; }
    DecodeLinked(dec, buffer[..compressed], mem, first, source, size, floor, dst, dest);
  }

  /** The decoder's half: a block made from the encoder's history extends its own. */
  method DecodeLinked(dec: StreamDecode, bytes: seq<byte>, ghost mem: seq<byte>, ghost first: nat, ghost source: nat, size: nat,
                      ghost floor: nat, dst: array<byte>, dest: nat)
    requires DecoderHas(dec, mem, first, source, dst, dest) && first <= floor <= source
    requires 1 <= size && source + size <= |mem| && dest + size <= dst.Length
    requires IsBlock(bytes, mem[..source], mem[source..source + size], floor)
    modifies dec, dst
    ensures DecoderHas(dec, mem, first, source + size, dst, dest + size)
    ensures dst[..dest] == old(dst[..dest])
  {
    hide IsBlock, Decompress, StreamDecode.Floor;
    ghost var out := dst[..dest];
    TailOf(dst, dest - (source - first), dest);
    LinkedBlockDecodes(bytes, mem, first, source, source + size, floor, out, dec.Floor(dest));
    var result := dec.DecompressSafeContinue(bytes, dst, dest, size);
    ghost var out' := dst[..dest + size];
    assert out' == out + mem[source..source + size];
    NextHistory(mem, first, source, source + size, out, out');
    TailOf(dst, dest - (source - first), dest + size);
  }

  lemma TailOf(a: array<byte>, x: nat, y: nat)
    requires x <= y <= a.Length
    ensures a[..y][x..] == a[x..y]
  {
  }

  lemma NextHistory(mem: seq<byte>, first: nat, source: nat, end: nat, out: seq<byte>, out': seq<byte>)
    requires first <= source <= end <= |mem| && source - first <= |out|
    requires out[|out| - (source - first)..] == mem[first..source] && out' == out + mem[source..end]
    ensures out'[|out'| - (end - first)..] == mem[first..end]
  {
    assert mem[first..end] == mem[first..source] + mem[source..end];
    assert out == out[..|out| - (source - first)] + out[|out| - (source - first)..];
  }

  ghost function Sum(sizes: seq<nat>): (n: nat) {
    if sizes == [] then 0 else Sum(sizes[..|sizes| - 1]) + sizes[|sizes| - 1]
  }

  lemma {:induction false} SumPrefix(sizes: seq<nat>, i: nat)
    requires i <= |sizes|
    ensures Sum(sizes[..i]) <= Sum(sizes)
    decreases |sizes|
  {
    if i < |sizes| {
      SumPrefix(sizes[..|sizes| - 1], i);
      assert sizes[..|sizes| - 1][..i] == sizes[..i];
    } else {
      assert sizes[..i] == sizes;
    }
  }

  /** The streaming round trip as one program: a memory cut into any non-empty blocks,
      compressed and decoded block by block on both streams, comes out unchanged. */
  method StreamingRoundTrip(mem: seq<byte>, sizes: seq<nat>, acceleration: int, hash: seq<byte> -> nat)
    returns (dst: array<byte>)
    requires Sum(sizes) == |mem| && forall i :: 0 <= i < |sizes| ==> 1 <= sizes[i] <= MAX_INPUT_SIZE
    ensures dst[..] == mem
  {
    hide Lz4Compressor.CompressBound;
    var enc := new Stream();
    var dec := new StreamDecode();
    dst := new byte[|mem|](_ => 0);
    var pos := 0;
    for i := 0 to |sizes|
      invariant pos == Sum(sizes[..i]) && fresh(enc) && fresh(enc.hashTable) && fresh(dec) && fresh(dst)
      invariant enc.hashTable as object != dst && dst.Length == |mem|
      invariant Linked(enc, dec, mem, 0, pos, dst, pos)
    {
      assert sizes[..i + 1][..i] == sizes[..i];
      SumPrefix(sizes, i + 1);
      var budget := Lz4Compressor.CompressBound(sizes[i]);
      var compressed := LinkedBlock(enc, dec, mem, 0, pos, sizes[i], dst, pos, budget, acceleration, hash);
      pos := pos + sizes[i];
    }
    assert sizes[..|sizes|] == sizes;
    assert dst[..] == dst[0..pos] && mem == mem[0..pos];
  }
}
