/** The compression context and the compression entry points (lz/lz4.c:1318-1688), for
    sources whose history, if any, lies right before them in memory. */
module Lz4Stream {
  import opened Bytes
  import opened Lz4Compressor
  import opened Lz4Format
  import opened Lz4Greedy
  import opened Lz4Memory
  import opened Lz4Search

  const MAX_INPUT_SIZE: nat := 0x7E000000
  const KB64: nat := 65536
  const LIMIT_64K: nat := 65536 + (MFLIMIT - 1)
  const ACCELERATION_DEFAULT: int := 1
  const ACCELERATION_MAX: int := 65537

  datatype TableType = ClearedTable | ByU32 | ByU16

  /** LZ4_compressBound (lz/lz4.c:734, lz/lz4.h:213). */
  function CompressBoundOf(inputSize: int): (r: nat) {
    if 0 <= inputSize <= MAX_INPUT_SIZE then CompressBound(inputSize) else 0
  }

  function ClampAcceleration(a: int): (r: nat)
    ensures 1 <= r <= ACCELERATION_MAX
  {
    if a < 1 then ACCELERATION_DEFAULT else if a > ACCELERATION_MAX then ACCELERATION_MAX else a
  }

  /** LZ4_stream_t_internal. The dictionary is the `dictSize` bytes of memory that start
      at position `dictionary`. */
  class Stream {
    const hashTable: array<nat>
    var currentOffset: nat
    var dictionary: nat
    var dictSize: nat
    var tableType: TableType

    /** Table entries never exceed the current offset, which stays within 31 bits. */
    ghost predicate Valid()
      reads this, hashTable
    {
      && hashTable.Length == 8192
      && dictSize <= currentOffset <= 0x80000000
      && forall h :: 0 <= h < hashTable.Length ==> hashTable[h] <= currentOffset
    }

    /** LZ4_initStream (lz/lz4.c:1531-1538). */
    constructor ()
      ensures Valid() && fresh(hashTable)
      ensures currentOffset == 0 && dictSize == 0 && tableType == ClearedTable
    {
      hashTable := new nat[8192](_ => 0);
      currentOffset, dictionary, dictSize, tableType := 0, 0, 0, ClearedTable;
    }

    /** Where a match may begin, given the mode of a call. */
    ghost function Floor(source: nat, withPrefix: bool): int
      reads this
    {
      if withPrefix then source - dictSize else source
    }

    /** What LZ4_compress_generic presumes of the mode: without the index test, a table
        entry must either name nothing before the history or be too far away to be used. */
    ghost predicate ModeOk(source: nat, byU16: bool, withPrefix: bool, dictSmall: bool, inputSize: int)
      reads this
    {
      && (withPrefix ==> dictSize <= source)
      && (byU16 ==> currentOffset + inputSize <= 65535 + MFLIMIT)
      && (!dictSmall ==> if withPrefix then dictSize >= currentOffset || (dictSize >= KB64 && !byU16)
                         else currentOffset == 0)
      && (dictSmall && !withPrefix ==> dictSize == 0)
    }

    lemma FreshTable(j: Job)
      requires j.TableSize() <= hashTable.Length
      requires forall h :: 0 <= h < hashTable.Length ==> hashTable[h] <= j.startIndex
      ensures TableOk(j, hashTable, j.startIndex + 1)
    {
    }

    lemma UsedTable(j: Job)
      requires j.source <= j.iend && TableOk(j, hashTable, j.Index(j.iend))
      ensures forall h :: 0 <= h < hashTable.Length ==> hashTable[h] <= j.Index(j.iend)
    {
      forall h | 0 <= h < hashTable.Length ensures hashTable[h] <= j.Index(j.iend) {
        assert EntryOk(j, h, hashTable[h], j.Index(j.iend));
      }
    }

    /** The block compressor's view of a call: what precedes the source, and where a table
        entry may lead. */
    ghost function JobOf(mem: seq<byte>, source: nat, size: nat, byU16: bool, withPrefix: bool, dictSmall: bool,
                         hash: seq<byte> -> nat): (j: Job)
      requires withPrefix ==> dictSize <= source
      reads this
    {
      Job(mem, source, source + size, currentOffset, if withPrefix then source - dictSize else source,
          currentOffset - dictSize, dictSmall, byU16, hash)
    }

    /** LZ4_compress_generic with its special cases (lz/lz4.c:1318-1349). */
    method CompressGeneric(mem: seq<byte>, source: nat, dst: array<byte>, inputSize: int, maxOutputSize: int,
                           d: Directive, byU16: bool, withPrefix: bool, dictSmall: bool, acceleration: nat,
                           hash: seq<byte> -> nat)
      returns (result: nat, consumed: nat)
      requires Valid() && hashTable as object != dst && acceleration >= 1
      requires 0 <= inputSize ==> source + inputSize <= |mem|
      requires 0 <= inputSize <= MAX_INPUT_SIZE ==> currentOffset + inputSize <= 0x80000000
      requires ModeOk(source, byU16, withPrefix, dictSmall, inputSize)
      requires if d.NotLimited? then dst.Length >= CompressBoundOf(inputSize) else maxOutputSize <= dst.Length
      modifies this`currentOffset, this`dictSize, this`tableType, hashTable, dst
      ensures Valid() && dictionary == old(dictionary)
      ensures inputSize < 0 || inputSize > MAX_INPUT_SIZE ==> result == 0
      ensures result == 0 ==>
                || inputSize < 0 || inputSize > MAX_INPUT_SIZE
                || (d.LimitedOutput? && maxOutputSize < CompressBound(inputSize))
                || (d.FillOutput? && maxOutputSize < 1)
      ensures result > 0 && !d.FillOutput? ==> consumed == inputSize
      ensures result > 0 ==>
                && 0 <= consumed <= inputSize && result <= dst.Length
                && result <= (if d.NotLimited? then CompressBound(inputSize) else maxOutputSize)
                && IsBlock(dst[..result], mem[..source], mem[source..source + consumed], old(Floor(source, withPrefix)))
                && currentOffset == old(currentOffset) + inputSize
                && (inputSize > 0 ==> dictSize == old(dictSize) + inputSize)
                && (inputSize == 0 ==> dictSize == old(dictSize))
      ensures 0 < inputSize <= MAX_INPUT_SIZE && (d.FillOutput? ==> maxOutputSize >= 1) ==>
                GreedyBlock(old(JobOf(mem, source, inputSize, byU16, withPrefix, dictSmall, hash)), old(hashTable[..]), acceleration,
                            d, maxOutputSize, result, consumed, dst, hashTable)
      ensures inputSize == 0 && (d.NotLimited? || maxOutputSize > 0) ==> result == 1 && dst[0] == 0
      ensures !d.NotLimited? ==>
                forall i :: 0 <= i < dst.Length && maxOutputSize <= i ==> dst[i] == old(dst[i])
    {
      hide IsBlock, EntryOk, GreedyBlock;
      consumed := 0;
      if inputSize < 0 || inputSize > MAX_INPUT_SIZE { return 0, 0; }
      if inputSize == 0 {
        if !d.NotLimited? && maxOutputSize <= 0 { return 0, 0; }
        dst[0] := 0;
        EmptySource(dst[..1], mem[..source], mem[source..source], Floor(source, withPrefix));
        return 1, 0;
      }
      if d.FillOutput? && maxOutputSize < 1 { return 0, 0; }
      var startIndex := currentOffset;
      var j := Job(mem, source, source + inputSize, startIndex,
                   if withPrefix then source - dictSize else source,
                   startIndex - dictSize, dictSmall, byU16, hash);
      assert j == JobOf(mem, source, inputSize, byU16, withPrefix, dictSmall, hash);
      ghost var lim: nat := if d.NotLimited? then dst.Length else if maxOutputSize < 0 then 0 else maxOutputSize;
      dictSize := dictSize + inputSize;
      currentOffset := currentOffset + inputSize;
      tableType := if byU16 then ByU16 else ByU32;
      FreshTable(j);
      result, consumed := CompressBlock(j, hashTable, dst, d, maxOutputSize, acceleration, lim);
      UsedTable(j);
    }

    // -------------------------------------------------------------- one block at a time

    /** LZ4_compress_fast_extState on a fresh state (lz/lz4.c:1352-1373). */
    method CompressFastExtState(mem: seq<byte>, source: nat, dst: array<byte>, inputSize: int, maxOutputSize: int,
                                acceleration: int, hash: seq<byte> -> nat)
      returns (result: nat)
      requires Valid() && hashTable as object != dst && currentOffset == 0
      requires 0 <= inputSize ==> source + inputSize <= |mem|
      requires maxOutputSize <= dst.Length
      modifies this`currentOffset, this`dictSize, this`tableType, hashTable, dst
      ensures CompressedTo(mem, source, dst, inputSize, maxOutputSize, result)
      ensures 0 < inputSize <= MAX_INPUT_SIZE ==>
                WithinBudget(old(JobOf(mem, source, inputSize, inputSize < LIMIT_64K, false, false, hash)), old(hashTable[..]),
                             ClampAcceleration(acceleration), maxOutputSize, result, dst, hashTable)
      ensures inputSize == 0 && maxOutputSize > 0 ==> result == 1 && dst[0] == 0
    {
      hide IsBlock, CompressBound, Greedy, BlockSize, IsOutput, EndsAs;
      var a := ClampAcceleration(acceleration);
      var byU16 := inputSize < LIMIT_64K;
      var consumed;
      if maxOutputSize >= CompressBoundOf(inputSize) {
        result, consumed := CompressGeneric(mem, source, dst, inputSize, 0, NotLimited, byU16, false, false, a, hash);
      } else {
        result, consumed := CompressGeneric(mem, source, dst, inputSize, maxOutputSize, LimitedOutput, byU16, false, false, a, hash);
      }
    }

    /** LZ4_compress_destSize_extState (lz/lz4.c:1449-1464): as much of the source as fits
        the target. */
    method CompressDestSizeExtState(mem: seq<byte>, source: nat, dst: array<byte>, srcSize: int, targetDstSize: int,
                                    hash: seq<byte> -> nat)
      returns (result: nat, srcSize': int)
      requires Valid() && hashTable as object != dst && currentOffset == 0
      requires 0 <= srcSize ==> source + srcSize <= |mem|
      requires targetDstSize <= dst.Length
      modifies this`currentOffset, this`dictSize, this`tableType, hashTable, dst
      ensures 0 <= srcSize <= MAX_INPUT_SIZE && targetDstSize >= 1 ==> result > 0
      ensures result > 0 ==>
                && 0 <= srcSize' <= srcSize && result <= dst.Length && result <= targetDstSize
                && IsBlock(dst[..result], mem[..source], mem[source..source + srcSize'], source)
      ensures result > 0 && srcSize' < srcSize ==> targetDstSize - 1 <= result
      ensures 0 < srcSize <= MAX_INPUT_SIZE ==>
                var j := old(JobOf(mem, source, srcSize, srcSize < LIMIT_64K, false, false, hash));
                var size := BlockSize(j, Greedy(j, old(hashTable[..]), 1).ss);
                size + 3 <= targetDstSize ==> result == size && srcSize' == srcSize
      ensures 0 < srcSize <= MAX_INPUT_SIZE && 0 < targetDstSize < CompressBound(srcSize) ==>
                GreedyBlock(old(JobOf(mem, source, srcSize, srcSize < LIMIT_64K, false, false, hash)), old(hashTable[..]), 1,
                            FillOutput, targetDstSize, result, srcSize', dst, hashTable)
    {
      hide IsBlock, CompressBound, Greedy, BlockSize, IsOutput;
      srcSize' := srcSize;
      if targetDstSize >= CompressBoundOf(srcSize) {
        result := CompressFastExtState(mem, source, dst, srcSize, targetDstSize, 1, hash);
      } else {
        var byU16 := srcSize < LIMIT_64K;
        ghost var t := hashTable[..];
        ghost var j := JobOf(mem, source, if srcSize > 0 then srcSize else 0, byU16, false, false, hash);
        result, srcSize' :=
          CompressGeneric(mem, source, dst, srcSize, targetDstSize, FillOutput, byU16, false, false, 1, hash);
        if 0 < srcSize <= MAX_INPUT_SIZE && BlockSize(j, Greedy(j, t, 1).ss) + 3 <= targetDstSize {
          FillsAll(j, t, 1, targetDstSize, result, srcSize', dst, hashTable);
        }
      }
    }

    // -------------------------------------------------------------- linked blocks

    ghost predicate Renorms(size: nat)
      reads this
    {
      currentOffset + size > 0x80000000
    }

    /** The block compressor's view of a linked block: the dictionary is its history. */
    ghost function LinkedJob(mem: seq<byte>, source: nat, size: nat, hash: seq<byte> -> nat): (j: Job)
      requires dictSize <= source
      reads this
    {
      var offset := if Renorms(size) then KB64 else currentOffset;
      var dict := if Renorms(size) && dictSize > KB64 then KB64 else dictSize;
      Job(mem, source, source + size, offset, source - dict, offset - dict, dict < KB64 && dict < offset, false, hash)
    }

    ghost function LinkedTable(size: nat): (t: seq<nat>)
      reads this, hashTable
    {
      seq(hashTable.Length, h requires 0 <= h < hashTable.Length reads this, hashTable =>
        if Renorms(size) then Renormed(hashTable[h], currentOffset) else hashTable[h])
    }

    /** LZ4_renormDictT (lz/lz4.c:1624-1641): before indices could pass 31 bits, move them
        down so that the current offset is 64 KB. */
    method RenormDict(nextSize: nat)
      requires Valid() && nextSize < 0x80000000
      modifies this`currentOffset, this`dictSize, this`dictionary, hashTable
      ensures Valid() && (nextSize <= MAX_INPUT_SIZE ==> currentOffset + nextSize <= 0x80000000)
      ensures dictionary + dictSize == old(dictionary + dictSize) && dictSize <= old(dictSize)
      ensures old(currentOffset) + nextSize <= 0x80000000 ==>
                currentOffset == old(currentOffset) && dictSize == old(dictSize) && hashTable[..] == old(hashTable[..])
      ensures old(currentOffset) + nextSize > 0x80000000 ==>
                && currentOffset == KB64 && dictSize == (if old(dictSize) > KB64 then KB64 else old(dictSize))
                && forall h :: 0 <= h < hashTable.Length ==>
                     hashTable[h] == Renormed(old(hashTable[h]), old(currentOffset))
      ensures nextSize <= MAX_INPUT_SIZE && old(currentOffset) + nextSize > 0x80000000 ==> old(currentOffset) >= KB64
      ensures hashTable[..] == old(LinkedTable(nextSize))
    {
      if currentOffset + nextSize > 0x80000000 {
        // the difference of two 32-bit numbers, which wraps for an offset below 64 KB
        var delta := (currentOffset - KB64) % 0x1_0000_0000;
        var dictEnd := dictionary + dictSize;
        var i := 0;
        while i < hashTable.Length
          modifies hashTable
          invariant 0 <= i <= hashTable.Length
          invariant forall h :: 0 <= h < i ==> hashTable[h] == Renormed(old(hashTable[h]), old(currentOffset))
          invariant forall h :: i <= h < hashTable.Length ==> hashTable[h] == old(hashTable[h])
        {
          if hashTable[i] < delta { hashTable[i] := 0; } else { hashTable[i] := hashTable[i] - delta; }
          i := i + 1;
        }
        currentOffset := KB64;
        if dictSize > KB64 { dictSize := KB64; }
        dictionary := dictEnd - dictSize;
      }
    }

    /** LZ4_compress_fast_continue (lz/lz4.c:1644-1688) on a source that begins where the
        dictionary ends, or on a stream without dictionary. */
    method CompressFastContinue(mem: seq<byte>, source: nat, dst: array<byte>, inputSize: nat, maxOutputSize: int,
                                acceleration: int, hash: seq<byte> -> nat)
      returns (result: nat)
      requires Valid() && hashTable as object != dst
      requires dictSize == 0 || dictionary + dictSize == source
      requires inputSize < 0x80000000 && source + inputSize <= |mem| && maxOutputSize <= dst.Length
      modifies this, hashTable, dst
      ensures Valid() && (result > 0 && inputSize > 0 ==> dictSize > 0 && dictionary + dictSize == source + inputSize)
      ensures result > 0 && inputSize > 0 ==> dictSize <= old(dictSize) + inputSize
      ensures inputSize <= MAX_INPUT_SIZE && maxOutputSize >= CompressBound(inputSize) ==> result > 0
      ensures inputSize > MAX_INPUT_SIZE ==> result == 0
      ensures result > 0 ==>
                && result <= dst.Length && result <= maxOutputSize
                && IsBlock(dst[..result], mem[..source], mem[source..source + inputSize], source - old(dictSize))
      ensures 0 < inputSize <= MAX_INPUT_SIZE ==>
                WithinBudget(old(LinkedJob(mem, source, inputSize, hash)), old(LinkedTable(inputSize)),
                             ClampAcceleration(acceleration), maxOutputSize, result, dst, hashTable)
    {
      hide IsBlock, CompressBound, WithinBudget, LinkedTable;
      ghost var dictSize0, j := dictSize, LinkedJob(mem, source, inputSize, hash);
      var hasDict, dictEnd := dictSize > 0, dictionary + dictSize;
      RenormDict(inputSize);
      var a := ClampAcceleration(acceleration);
      if dictSize < 4 && !(hasDict && dictEnd == source) && inputSize > 0 {
        dictSize := 0;
        dictionary := source;
        hasDict, dictEnd := true, source;
      }
      if hasDict && dictEnd == source {
        assert j == JobOf(mem, source, inputSize, false, true, dictSize < KB64 && dictSize < currentOffset, hash);
        result := CompressPrefixed(mem, source, dst, inputSize, maxOutputSize, a, hash, source - dictSize0);
      } else {
        // only an empty source reaches the external-dictionary branch
        var consumed;
        result, consumed := CompressGeneric(mem, source, dst, 0, maxOutputSize, LimitedOutput, false, true, true, a, hash);
        dictionary := source;
        dictSize := inputSize;
      }
    }

    /** The branch for a dictionary that ends where the source begins (lz/lz4.c:1666-1671). */
    method CompressPrefixed(mem: seq<byte>, source: nat, dst: array<byte>, inputSize: nat, maxOutputSize: int,
                            acceleration: nat, hash: seq<byte> -> nat, ghost low: nat)
      returns (result: nat)
      requires Valid() && hashTable as object != dst && acceleration >= 1
      requires dictSize <= source && low <= source - dictSize && source + inputSize <= |mem| && maxOutputSize <= dst.Length
      requires inputSize <= MAX_INPUT_SIZE ==> currentOffset + inputSize <= 0x80000000
      modifies this`currentOffset, this`dictSize, this`tableType, hashTable, dst
      ensures Valid() && dictionary == old(dictionary)
      ensures result > 0 ==> dictSize == old(dictSize) + inputSize
      ensures inputSize <= MAX_INPUT_SIZE && maxOutputSize >= CompressBound(inputSize) ==> result > 0
      ensures inputSize > MAX_INPUT_SIZE ==> result == 0
      ensures result > 0 ==>
                && result <= dst.Length && result <= maxOutputSize
                && IsBlock(dst[..result], mem[..source], mem[source..source + inputSize], low)
      ensures 0 < inputSize <= MAX_INPUT_SIZE ==>
                WithinBudget(old(JobOf(mem, source, inputSize, false, true, dictSize < KB64 && dictSize < currentOffset, hash)),
                             old(hashTable[..]), acceleration, maxOutputSize, result, dst, hashTable)
    {
      hide IsBlock, CompressBound, Greedy, BlockSize, IsOutput, EndsAs;
      ghost var floor: nat := source - dictSize;
      var dictSmall := dictSize < KB64 && dictSize < currentOffset;
      var consumed;
      result, consumed := CompressGeneric(mem, source, dst, inputSize, maxOutputSize, LimitedOutput, false, true,
                                          dictSmall, acceleration, hash);
      if result > 0 { LowerFloor(dst[..result], mem[..source], mem[source..source + inputSize], floor, low); }
    }
  }

  /** A limited call: the greedy block if the budget holds it, else nothing. */
  ghost predicate WithinBudget(j: Job, t: seq<nat>, acceleration: nat, budget: int, result: nat, dst: array<byte>, table: array<nat>)
    reads dst, table
  {
    && |t| >= j.TableSize() && j.lowLimit <= j.source <= j.iend <= |j.mem| && acceleration >= 1
    && var parse := Greedy(j, t, acceleration);
    && result == (if BlockSize(j, parse.ss) <= budget then BlockSize(j, parse.ss) else 0)
    && (result > 0 ==>
          result <= dst.Length && IsOutput(j, dst[..result], j.iend - j.source, parse.ss) && table[..] == parse.table)
  }

  /** What every compression entry point promises: a positive result is the size of a block
      that holds the source and fits the budget; with the documented bound as budget a
      supported source never fails. */
  ghost predicate CompressedTo(mem: seq<byte>, source: nat, dst: array<byte>, inputSize: int, maxOutputSize: int, result: nat)
    reads dst
  {
    && (0 <= inputSize <= MAX_INPUT_SIZE && maxOutputSize >= CompressBoundOf(inputSize) ==> result > 0)
    && (result > 0 ==>
        && 0 <= inputSize <= MAX_INPUT_SIZE && source + inputSize <= |mem|
        && result <= dst.Length && result <= maxOutputSize && result <= CompressBound(inputSize)
        && IsBlock(dst[..result], mem[..source], mem[source..source + inputSize], source))
  }

  lemma EmptySource(bytes: seq<byte>, mem: seq<byte>, content: seq<byte>, low: nat)
    requires bytes == [0] && content == []
    ensures IsBlock(bytes, mem, content, low)
  {
    assert EncodeAll([]) + EncodeRun([], 0) == [0];
    assert mem + content == mem + [];
    assert IsBlockOf([], [], bytes, mem, content, low);
  }

  /** An entry after renormalisation: gone, or moved down with the current offset. Below an
      offset of 64 KB the difference wraps, and every entry is gone. */
  function Renormed(i: nat, offset: nat): (r: nat) {
    if offset < KB64 || i < offset - KB64 then 0 else i - (offset - KB64)
  }

  /** Renormalisation changes no decision: seen from any later position, an entry is
      acceptable after it exactly when it was before, and then lies equally far back. */
  lemma RenormKeepsCandidates(i: nat, offset: nat, ahead: nat, low: nat)
    requires KB64 <= offset && i <= offset && low <= offset
    ensures var before := low <= i && i + DISTANCE_MAX >= offset + ahead;
            var low' := if offset - low > KB64 then 0 else KB64 - (offset - low);
            var after := low' <= Renormed(i, offset) && Renormed(i, offset) + DISTANCE_MAX >= KB64 + ahead;
            && (before <==> after)
            && (after ==> KB64 + ahead - Renormed(i, offset) == offset + ahead - i)
  {
  }

  lemma LowerFloor(bytes: seq<byte>, mem: seq<byte>, content: seq<byte>, low: nat, low': nat)
    requires IsBlock(bytes, mem, content, low) && low' <= low
    ensures IsBlock(bytes, mem, content, low')
  {
    hide EncodeAll, EncodeRun, ApplyAll, Placed;
    var ss, last :| IsBlockOf(ss, last, bytes, mem, content, low);
    PlacedLower(mem, ss, low, low', |mem| + |content| - MFLIMIT, |mem| + |content| - LASTLITERALS);
    assert IsBlockOf(ss, last, bytes, mem, content, low');
  }

  lemma {:induction false} PlacedLower(mem: seq<byte>, ss: seq<Sequence>, low: nat, low': nat, lastStart: int, lastEnd: int)
    requires Placed(mem, ss, low, lastStart, lastEnd) && low' <= low
    ensures Placed(mem, ss, low', lastStart, lastEnd)
    decreases |ss|
  {
    hide Apply;
    if ss != [] { PlacedLower(Apply(mem, ss[0]), ss[1..], low, low', lastStart, lastEnd); }
  }
}
