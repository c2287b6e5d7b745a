/** The FlatBuffers table format: little-endian scalars, tables and vtables, and the
    reader of flatbuffers/table.h over a buffer that grows towards its front. */
module FlatFormat {
  import opened Bytes
  import opened Options

  /** How a table or vtable is named: its distance from the end of the buffer. */
  type Offset = nat

  // ---------------------------------------------------------------- scalars

  function Pow256(k: nat): (p: nat)
    ensures p > 0
  {
    if k == 0 then 1 else 256 * Pow256(k - 1)
  }

  /** The `k` bytes of `n`, lowest first. */
  function LE(n: nat, k: nat): (s: seq<byte>)
    ensures |s| == k
  {
    if k == 0 then [] else [n % 256] + LE(n / 256, k - 1)
  }

  function FromLE(s: seq<byte>): (n: nat) {
    if s == [] then 0 else s[0] + 256 * FromLE(s[1..])
  }

  lemma {:induction false} FromLEInvertsLE(n: nat, k: nat)
    requires n < Pow256(k)
    ensures FromLE(LE(n, k)) == n
  {
    if k > 0 {
      assert n / 256 < Pow256(k - 1);
      FromLEInvertsLE(n / 256, k - 1);
      assert LE(n, k)[1..] == LE(n / 256, k - 1);
    }
  }

  lemma {:induction false} FromLEZeros(k: nat)
    ensures FromLE(seq(k, _ => 0)) == 0
  {
    if k > 0 {
      FromLEZeros(k - 1);
      assert seq(k, _ => 0 as byte)[1..] == seq(k - 1, _ => 0 as byte);
    }
  }

  lemma Widths()
    ensures Pow256(2) == 0x1_0000 && Pow256(4) == 0x1_0000_0000
  {
    assert Pow256(1) == 256 && Pow256(3) == 0x100_0000;
  }

  /** A difference stored in 32 bits and read back signed. */
  function Signed(n: nat): (i: int) {
    if n < 0x8000_0000 then n else n - 0x1_0000_0000
  }

  function Unsigned(i: int): (n: nat)
    requires -0x8000_0000 <= i < 0x8000_0000
    ensures n < 0x1_0000_0000 && Signed(n) == i
  {
    if i >= 0 then i else i + 0x1_0000_0000
  }

  // ---------------------------------------------------------------- alignment

  predicate IsScalarSize(n: nat) {
    n == 1 || n == 2 || n == 4 || n == 8
  }

  predicate Aligned(n: nat, size: nat)
    requires IsScalarSize(size)
  {
    n % size == 0
  }

  /** PaddingBytes (flatbuffers/base.h:457-459). */
  function PaddingBytes(bufSize: nat, scalarSize: nat): (n: nat)
    requires IsScalarSize(scalarSize)
    ensures n < scalarSize && Aligned(bufSize + n, scalarSize)
  {
    if bufSize % scalarSize == 0 then 0 else scalarSize - bufSize % scalarSize
  }

  lemma AlignedNext(n: nat, size: nat)
    requires IsScalarSize(size) && Aligned(n, size)
    ensures Aligned(n + size, size)
  {
  }

  // ---------------------------------------------------------------- places in the buffer

  /** `k` bytes at a distance of `off` from the end: data_at(off) of
      flatbuffers/vector_downward.h:193. */
  function FromEnd(d: seq<byte>, off: nat, k: nat): (s: seq<byte>)
    requires k <= off <= |d|
    ensures |s| == k
  {
    d[|d| - off..|d| - off + k]
  }

  lemma FromEndBelow(x: seq<byte>, d: seq<byte>, off: nat, k: nat)
    requires k <= off <= |d|
    ensures FromEnd(x + d, off, k) == FromEnd(d, off, k)
  {
  }

  /** Part of a stretch. */
  lemma FromEndPart(d: seq<byte>, off: nat, k: nat, i: nat, j: nat)
    requires k <= off <= |d| && i + j <= k
    ensures FromEnd(d, off - i, j) == FromEnd(d, off, k)[i..i + j]
  {
    var a, b := FromEnd(d, off - i, j), FromEnd(d, off, k)[i..i + j];
    forall m | 0 <= m < j ensures a[m] == b[m] { assert b[m] == FromEnd(d, off, k)[i + m]; }
  }

  // ---------------------------------------------------------------- the reader

  const VTABLE_HEADER: nat := 4

  /** Where a table's vtable is (flatbuffers/table.h:29-31). */
  function VTable(d: seq<byte>, table: Offset): (v: int)
    requires 4 <= table <= |d|
  {
    table + Signed(FromLE(FromEnd(d, table, 4)))
  }

  /** Entry `f` of the vtable at `v`, or 0 past its end (flatbuffers/table.h:35-43). */
  predicate VTableFits(d: seq<byte>, v: int) {
    && 2 <= v <= |d|
    && FromLE(FromEnd(d, v, 2)) <= v
  }

  function Entry(d: seq<byte>, v: nat, f: nat): (e: nat)
    requires VTableFits(d, v) && f % 2 == 0 && FromLE(FromEnd(d, v, 2)) % 2 == 0
  {
    if f < FromLE(FromEnd(d, v, 2)) then FromLE(FromEnd(d, v - f, 2)) else 0
  }

  predicate Readable(d: seq<byte>, table: Offset) {
    && 4 <= table <= |d|
    && VTableFits(d, VTable(d, table))
    && FromLE(FromEnd(d, VTable(d, table), 2)) % 2 == 0
  }

  function GetOptionalFieldOffset(d: seq<byte>, table: Offset, f: nat): (e: nat)
    requires Readable(d, table) && f % 2 == 0
  {
    Entry(d, VTable(d, table), f)
  }

  /** GetField (flatbuffers/table.h:45-48) for a scalar as wide as `def`. */
  function GetField(d: seq<byte>, table: Offset, f: nat, def: seq<byte>): (v: seq<byte>)
    requires Readable(d, table) && f % 2 == 0
    requires var e := GetOptionalFieldOffset(d, table, f); e == 0 || e + |def| <= table
  {
    var e := GetOptionalFieldOffset(d, table, f);
    if e != 0 then FromEnd(d, table - e, |def|) else def
  }

  /** GetPointer (flatbuffers/table.h:50-56), named by its distance from the end: what the
      field refers to, or nothing. */
  function GetPointer(d: seq<byte>, table: Offset, f: nat): (p: Option<int>)
    requires Readable(d, table) && f % 2 == 0
    requires GetOptionalFieldOffset(d, table, f) == 0 || GetOptionalFieldOffset(d, table, f) + 4 <= table
  {
    var e := GetOptionalFieldOffset(d, table, f);
    if e != 0 then Some(table - e - FromLE(FromEnd(d, table - e, 4))) else None
  }

  /** A field's bytes and where they are. */
  datatype Stored = Stored(at: Offset, value: seq<byte>)

  /** The table holds exactly these fields. */
  ghost predicate ReadsAs(d: seq<byte>, table: Offset, fields: map<nat, Stored>) {
    && Readable(d, table)
    && forall f {:trigger GetOptionalFieldOffset(d, table, f)} :: f >= VTABLE_HEADER && f % 2 == 0 ==>
         HoldsField(d, table, fields, f)
  }

  ghost predicate HoldsField(d: seq<byte>, table: Offset, fields: map<nat, Stored>, f: nat)
    requires Readable(d, table) && f % 2 == 0
  {
    var e := GetOptionalFieldOffset(d, table, f);
    if f in fields then
      var at, value := fields[f].at, fields[f].value;
      e != 0 && at + e == table && |value| <= at && FromEnd(d, at, |value|) == value
    else e == 0
  }

  lemma HoldsEach(d: seq<byte>, table: Offset, fields: map<nat, Stored>, f: nat)
    requires ReadsAs(d, table, fields) && f >= VTABLE_HEADER && f % 2 == 0
    ensures HoldsField(d, table, fields, f)
  {
    var _ := GetOptionalFieldOffset(d, table, f);
  }

  /** What a table that holds `fields` answers: the field, or the reader's default. */
  lemma FieldOrDefault(d: seq<byte>, table: Offset, fields: map<nat, Stored>, f: nat, def: seq<byte>)
    requires ReadsAs(d, table, fields) && f >= VTABLE_HEADER && f % 2 == 0
    requires f in fields ==> |fields[f].value| == |def|
    ensures var e := GetOptionalFieldOffset(d, table, f); e == 0 || e + |def| <= table
    ensures GetField(d, table, f, def) == if f in fields then fields[f].value else def
  {
    hide ReadsAs, Readable, GetOptionalFieldOffset, FromEnd;
    HoldsEach(d, table, fields, f);
  }

  lemma PointerOrNone(d: seq<byte>, table: Offset, fields: map<nat, Stored>, f: nat)
    requires ReadsAs(d, table, fields) && f >= VTABLE_HEADER && f % 2 == 0
    requires f in fields ==> |fields[f].value| == 4
    ensures var e := GetOptionalFieldOffset(d, table, f); e == 0 || e + 4 <= table
    ensures GetPointer(d, table, f) == if f in fields then Some(fields[f].at - FromLE(fields[f].value)) else None
  {
    hide ReadsAs, Readable, GetOptionalFieldOffset, FromEnd, FromLE;
    HoldsEach(d, table, fields, f);
    if f in fields { assert |fields[f].value| == 4; }
  }

  /** Bytes added at the front change nothing that is already there. */
  lemma ReadsAsBelow(x: seq<byte>, d: seq<byte>, table: Offset, fields: map<nat, Stored>)
    requires ReadsAs(d, table, fields)
    ensures ReadsAs(x + d, table, fields)
  {
    var v := VTable(d, table);
    FromEndBelow(x, d, table, 4);
    VTableBelow(x, d, v);
    forall f | f >= VTABLE_HEADER && f % 2 == 0 ensures HoldsField(x + d, table, fields, f) {
      HoldsEach(d, table, fields, f);
      EntryBelow(x, d, v, f);
      if f in fields { FromEndBelow(x, d, fields[f].at, |fields[f].value|); }
    }
  }

  lemma VTableBelow(x: seq<byte>, d: seq<byte>, v: nat)
    requires VTableFits(d, v)
    ensures VTableFits(x + d, v) && FromLE(FromEnd(x + d, v, 2)) == FromLE(FromEnd(d, v, 2))
  {
    FromEndBelow(x, d, v, 2);
  }

  lemma EntryBelow(x: seq<byte>, d: seq<byte>, v: nat, f: nat)
    requires VTableFits(d, v) && f % 2 == 0 && FromLE(FromEnd(d, v, 2)) % 2 == 0
    ensures VTableFits(x + d, v) && FromLE(FromEnd(x + d, v, 2)) % 2 == 0
    ensures Entry(x + d, v, f) == Entry(d, v, f)
  {
    VTableBelow(x, d, v);
    if f < FromLE(FromEnd(d, v, 2)) { FromEndBelow(x, d, v - f, 2); }
  }
}
