/** LZ4_decompress_unsafe_generic without dictionary (lz/lz4.c:1806-1903): the decoder
    kept simple for maintenance, which copies every match one byte at a time. */
module Lz4PlainDecoder {
  import opened Bytes
  import opened Lz4Format
  import opened Lz4Spec

  /** read_long_length_no_check (lz/lz4.c:1789-1795). */
  method ReadLongLength(src: seq<byte>, ip0: nat, ghost acc: nat) returns (l: nat, ip: nat)
    requires ip0 <= |src| && PlainLength(src, ip0, acc).Length?
    ensures PlainLength(src, ip0, acc) == Length(acc + l, ip)
  {
    ip, l := ip0, 0;
    var b: byte := 255;
    while b == 255
      invariant ip0 <= ip <= |src|
      invariant b == 255 ==> PlainLength(src, ip, acc + l) == PlainLength(src, ip0, acc)
      invariant b != 255 ==> PlainLength(src, ip0, acc) == Length(acc + l, ip)
      decreases |src| - ip, if b == 255 then 1 else 0
    {
      b := src[ip];
      ip := ip + 1;
      l := l + b;
    }
  }

  /** With offset 0 the loop copies each byte onto itself. */
  method CopyMatchBytes(dst: array<byte>, op: nat, offset: nat, ml: nat)
    requires offset <= op && op + ml <= dst.Length
    modifies dst
    ensures offset > 0 ==> dst[..op + ml] == CopyMatch(old(dst[..op]), offset, ml)
    ensures offset == 0 ==> dst[..] == old(dst[..])
    ensures forall i :: op + ml <= i < dst.Length ==> dst[i] == old(dst[i])
  {
    for u := 0 to ml
      invariant offset > 0 ==> dst[..op + u] == CopyMatch(old(dst[..op]), offset, u)
      invariant offset == 0 ==> dst[..] == old(dst[..])
      invariant forall i :: op + u <= i < dst.Length ==> dst[i] == old(dst[i])
    {
      ghost var r := dst[..op + u];
      assert offset > 0 ==> r[|r| - offset] == dst[op - offset + u];
      dst[op + u] := dst[op - offset + u];
      assert dst[..op + u + 1] == r + [dst[op + u]];
    }
  }

  /** What it computes on input it may trust: its caller promises that the block does not
      run past the input and holds no zero offset. */
  method DecompressUnsafeGeneric(src: seq<byte>, dst: array<byte>, start: nat, decompressedSize: nat, low: nat)
    returns (result: int)
    requires start + decompressedSize <= dst.Length && low <= start
    requires var p := Plain(src, 0, dst[..start], low, start + decompressedSize);
             !p.Overread? && !p.Unwritten?
    modifies dst
    ensures match Plain(src, 0, old(dst[..start]), low, start + decompressedSize)
            case Finished(mem, read) => result == read && dst[..start + decompressedSize] == mem
            case _ => result == -1
    ensures forall i :: start + decompressedSize <= i < dst.Length ==> dst[i] == old(dst[i])
  {
    var ip: nat, op: nat, oend := 0, start, start + decompressedSize;
    ghost var goal := Plain(src, 0, dst[..start], low, oend);
    while true
      invariant ip <= |src| && start <= op <= oend
      invariant Plain(src, ip, dst[..op], low, oend) == goal
      invariant forall i :: oend <= i < dst.Length ==> dst[i] == old(dst[i])
      decreases |src| - ip
    {
      var done;
      result, done, ip, op := PlainSequence(src, dst, ip, op, oend, low);
      if done { return; }
    }
  }

  method PlainSequence(src: seq<byte>, dst: array<byte>, ip0: nat, op0: nat, oend: nat, low: nat)
    returns (result: int, done: bool, ip: nat, op: nat)
    requires ip0 <= |src| && op0 <= oend <= dst.Length
    requires !Plain(src, ip0, dst[..op0], low, oend).Overread? && !Plain(src, ip0, dst[..op0], low, oend).Unwritten?
    modifies dst
    ensures done ==>
      match Plain(src, ip0, old(dst[..op0]), low, oend)
      case Finished(mem, read) => result == read && dst[..oend] == mem
      case _ => result == -1
    ensures !done ==>
      && ip0 < ip <= |src| && op0 <= op <= oend
      && Plain(src, ip, dst[..op], low, oend) == Plain(src, ip0, old(dst[..op0]), low, oend)
    ensures forall i :: oend <= i < dst.Length ==> dst[i] == old(dst[i])
  {
    hide CopyMatch, PlainLength;
    done, result, ip, op := true, -1, ip0, op0;
    ghost var mem0 := dst[..op0];
    var token := src[ip];
    ip := ip + 1;
    var ll: nat := token / 16;
    if ll == 15 {
      var l, ip' := ReadLongLength(src, ip, 15);
      ll, ip := ll + l, ip';
    }
    if oend - op < ll { return; }
    forall i | 0 <= i < ll { dst[op + i] := src[ip + i]; }
    assert dst[..op + ll] == mem0 + src[ip..ip + ll];
    op, ip := op + ll, ip + ll;
    if oend - op < MFLIMIT {
      if op == oend { result := ip; }
      return;
    }
    result, done, ip, op := PlainMatchPart(src, dst, token % 16, ip, op, oend, low);
  }

  method PlainMatchPart(src: seq<byte>, dst: array<byte>, nibble: nat, ip0: nat, op0: nat, oend: nat, low: nat)
    returns (result: int, done: bool, ip: nat, op: nat)
    requires ip0 <= |src| && op0 <= oend <= dst.Length
    requires var p := PlainMatch(src, nibble, ip0, dst[..op0], low, oend); !p.Overread? && !p.Unwritten?
    modifies dst
    ensures done ==> result == -1 && PlainMatch(src, nibble, ip0, old(dst[..op0]), low, oend).Refused?
    ensures !done ==>
      && ip0 < ip <= |src| && op0 <= op <= oend
      && Plain(src, ip, dst[..op], low, oend) == PlainMatch(src, nibble, ip0, old(dst[..op0]), low, oend)
    ensures forall i :: oend <= i < dst.Length ==> dst[i] == old(dst[i])
  {
    hide CopyMatch, PlainLength, Plain;
    done, result, ip, op := true, -1, ip0, op0;
    var offset := ReadLE16(src, ip);
    ip := ip + 2;
    var ml := nibble;
    if ml == 15 {
      var l, ip' := ReadLongLength(src, ip, 15);
      ml, ip := ml + l, ip';
    }
    ml := ml + MINMATCH;
    if oend - op < ml { return; }
    if offset > op - low { return; }
    CopyMatchBytes(dst, op, offset, ml);
    op := op + ml;
    if oend - op < LASTLITERALS { return; }
    done := false;
  }
}
