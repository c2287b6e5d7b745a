/** flatbuffers/flatbuffer_builder.h: tables written back to front, with vtables shared
    between tables of the same layout. */
module FlatBuilder {
  import opened Bytes
  import opened FlatFormat
  import opened VectorDownwards

  // flatbuffers/base.h:340
  const MAX_BUFFER_SIZE: nat := 0x7FFF_FFFF

  datatype FieldLoc = FieldLoc(off: nat, id: nat)

  // ---------------------------------------------------------------- the scratch pad

  function Words(vs: seq<nat>): (s: seq<byte>)
    ensures |s| == 4 * |vs|
  {
    if vs == [] then [] else Words(vs[..|vs| - 1]) + LE(vs[|vs| - 1], 4)
  }

  /** One FieldLoc in memory; the last two bytes only align the next. */
  function Loc(f: FieldLoc): (s: seq<byte>)
    ensures |s| == 8
  {
    LE(f.off, 4) + LE(f.id, 2) + [0, 0]
  }

  function Locs(fs: seq<FieldLoc>): (s: seq<byte>)
    ensures |s| == 8 * |fs|
  {
    if fs == [] then [] else Locs(fs[..|fs| - 1]) + Loc(fs[|fs| - 1])
  }

  lemma {:induction false} WordAt(vs: seq<nat>, i: nat)
    requires i < |vs|
    ensures Words(vs)[4 * i..4 * i + 4] == LE(vs[i], 4)
  {
    hide LE;
    if i < |vs| - 1 {
      WordAt(vs[..|vs| - 1], i);
      assert Words(vs)[4 * i..4 * i + 4] == Words(vs[..|vs| - 1])[4 * i..4 * i + 4];
    }
  }

  lemma {:induction false} LocAt(fs: seq<FieldLoc>, i: nat)
    requires i < |fs|
    ensures Locs(fs)[8 * i..8 * i + 8] == Loc(fs[i])
  {
    hide Loc;
    if i < |fs| - 1 {
      LocAt(fs[..|fs| - 1], i);
      assert Locs(fs)[8 * i..8 * i + 8] == Locs(fs[..|fs| - 1])[8 * i..8 * i + 8];
    }
  }

  // ---------------------------------------------------------------- vtables

  function U16(vt: seq<byte>, f: nat): (n: nat)
    requires f + 2 <= |vt|
  {
    FromLE(vt[f..f + 2])
  }

  function Patch(vt: seq<byte>, at: nat, bytes: seq<byte>): (r: seq<byte>)
    requires at + |bytes| <= |vt|
    ensures |r| == |vt|
  {
    vt[..at] + bytes + vt[at + |bytes|..]
  }

  lemma U16Patch(vt: seq<byte>, at: nat, n: nat, f: nat)
    requires at + 2 <= |vt| && f + 2 <= |vt| && at % 2 == 0 && f % 2 == 0 && n < 0x1_0000
    ensures U16(Patch(vt, at, LE(n, 2)), f) == if f == at then n else U16(vt, f)
  {
    hide LE, FromLE, Patch, Pow256;
    Patched(vt, at, LE(n, 2), f);
    if f == at {
      Widths();
      FromLEInvertsLE(n, 2);
    }
  }

  lemma Patched(vt: seq<byte>, at: nat, bytes: seq<byte>, f: nat)
    requires |bytes| == 2 && at + 2 <= |vt| && f + 2 <= |vt| && (f == at || f + 2 <= at || at + 2 <= f)
    ensures Patch(vt, at, bytes)[f..f + 2] == if f == at then bytes else vt[f..f + 2]
  {
    var r := Patch(vt, at, bytes);
    assert r[f..f + 2] == [r[f], r[f + 1]];
    assert vt[f..f + 2] == [vt[f], vt[f + 1]];
    assert bytes == [bytes[0], bytes[1]];
  }

  /** The vtable entry of field `f` of a table at `table`. */
  function PosOf(fs: seq<FieldLoc>, f: nat, table: nat): (e: int) {
    if fs == [] then 0
    else if fs[|fs| - 1].id == f then table - fs[|fs| - 1].off
    else PosOf(fs[..|fs| - 1], f, table)
  }

  lemma {:induction false} PosOfAbsent(fs: seq<FieldLoc>, f: nat, table: nat)
    requires forall i :: 0 <= i < |fs| ==> fs[i].id != f
    ensures PosOf(fs, f, table) == 0
  {
    if fs != [] { PosOfAbsent(fs[..|fs| - 1], f, table); }
  }

  lemma {:induction false} PosOfAt(fs: seq<FieldLoc>, i: nat, table: nat)
    requires i < |fs| && forall j, k :: 0 <= j < k < |fs| ==> fs[j].id != fs[k].id
    ensures PosOf(fs, fs[i].id, table) == table - fs[i].off
  {
    if i < |fs| - 1 { PosOfAt(fs[..|fs| - 1], i, table); }
  }

  predicate DistinctIds(fs: seq<FieldLoc>) {
    forall j, k :: 0 <= j < k < |fs| ==> fs[j].id != fs[k].id
  }

  /** The first `k` fields are entered in the vtable. */
  predicate Entered(vt: seq<byte>, fs: seq<FieldLoc>, table: nat) {
    forall f {:trigger U16(vt, f)} :: VTABLE_HEADER <= f && f + 2 <= |vt| && f % 2 == 0 ==> U16(vt, f) == PosOf(fs, f, table)
  }

  lemma EnterOne(vt: seq<byte>, fs: seq<FieldLoc>, loc: FieldLoc, table: nat)
    requires Entered(vt, fs, table) && loc.id % 2 == 0 && VTABLE_HEADER <= loc.id && loc.id + 2 <= |vt|
    requires loc.off <= table && table - loc.off < 0x1_0000
    ensures Entered(Patch(vt, loc.id, LE(table - loc.off, 2)), fs + [loc], table)
  {
    hide LE, FromLE, Patch, U16;
    var r := Patch(vt, loc.id, LE(table - loc.off, 2));
    assert (fs + [loc])[..|fs|] == fs;
    forall f | VTABLE_HEADER <= f && f + 2 <= |r| && f % 2 == 0 ensures U16(r, f) == PosOf(fs + [loc], f, table) {
      U16Patch(vt, loc.id, table - loc.off, f);
    }
  }

  /** A vtable that was finished: its own size comes first. */
  predicate KnownVTable(d: seq<byte>, v: nat) {
    VTableFits(d, v) && FromLE(FromEnd(d, v, 2)) % 2 == 0 && FromLE(FromEnd(d, v, 2)) >= VTABLE_HEADER
  }

  /** The bytes of a vtable. */
  function VTableOf(d: seq<byte>, v: nat): (vt: seq<byte>) {
    if VTableFits(d, v) then FromEnd(d, v, FromLE(FromEnd(d, v, 2))) else []
  }

  /** No two vtables have the same bytes. */
  predicate Distinct(d: seq<byte>, vtables: seq<nat>) {
    forall i, j :: 0 <= i < j < |vtables| ==> VTableOf(d, vtables[i]) != VTableOf(d, vtables[j])
  }

  predicate Unknown(d: seq<byte>, vtables: seq<nat>, vt: seq<byte>) {
    forall i :: 0 <= i < |vtables| ==> VTableOf(d, vtables[i]) != vt
  }

  lemma VTableOfBelow(x: seq<byte>, d: seq<byte>, v: nat)
    requires VTableFits(d, v)
    ensures VTableOf(x + d, v) == VTableOf(d, v)
  {
    hide FromLE, FromEnd;
    VTableBelow(x, d, v);
    FromEndBelow(x, d, v, FromLE(FromEnd(d, v, 2)));
  }

  /** Where each field of a table lies, and what is there. */
  predicate Placed(d: seq<byte>, start: nat, fs: seq<FieldLoc>, fields: map<nat, Stored>) {
    DistinctIds(fs) && Located(|d|, start, fs, fields) && ValuesAt(d, fields) && Covered(fs, fields)
  }

  predicate Located(size: nat, start: nat, fs: seq<FieldLoc>, fields: map<nat, Stored>) {
    && (forall i :: 0 <= i < |fs| ==>
          VTABLE_HEADER <= fs[i].id < 0xFFFE && fs[i].id % 2 == 0 && start < fs[i].off <= size)
    && (forall i :: 0 <= i < |fs| ==> fs[i].id in fields && fields[fs[i].id].at == fs[i].off)
  }

  predicate ValuesAt(d: seq<byte>, fields: map<nat, Stored>) {
    && (forall f :: f in fields ==> |fields[f].value| <= fields[f].at <= |d|)
    && (forall f :: f in fields ==> FromEnd(d, fields[f].at, |fields[f].value|) == fields[f].value)
  }

  predicate Covered(fs: seq<FieldLoc>, fields: map<nat, Stored>) {
    forall f :: f in fields ==> exists i :: 0 <= i < |fs| && fs[i].id == f
  }

  lemma PlacedBelow(x: seq<byte>, d: seq<byte>, start: nat, fs: seq<FieldLoc>, fields: map<nat, Stored>)
    requires Placed(d, start, fs, fields)
    ensures Placed(x + d, start, fs, fields)
  {
    hide DistinctIds, Covered, FromEnd;
    forall f | f in fields ensures FromEnd(x + d, fields[f].at, |fields[f].value|) == fields[f].value {
      FromEndBelow(x, d, fields[f].at, |fields[f].value|);
    }
  }

  /** A table with its vtable in place answers with exactly its fields. */
  lemma TableReads(d: seq<byte>, table: nat, v: nat, vt: seq<byte>, start: nat, fs: seq<FieldLoc>, fields: map<nat, Stored>)
    requires 4 <= table <= |d| <= MAX_BUFFER_SIZE && v <= |d| && FromEnd(d, table, 4) == LE(Unsigned(v - table), 4)
    requires VTABLE_HEADER <= |vt| <= v <= |d| && FromEnd(d, v, |vt|) == vt
    requires |vt| % 2 == 0 && U16(vt, 0) == |vt| && Entered(vt, fs, table)
    requires Placed(d, start, fs, fields)
    requires forall i :: 0 <= i < |fs| ==> fs[i].off < table && fs[i].id < |vt|
    ensures ReadsAs(d, table, fields)
  {
    hide LE, FromLE, FromEnd, PosOf;
    Widths();
    FromLEInvertsLE(Unsigned(v - table), 4);
    FromEndPart(d, v, |vt|, 0, 2);
    assert VTable(d, table) == v;
    forall f | f >= VTABLE_HEADER && f % 2 == 0 ensures HoldsField(d, table, fields, f) {
      if f < |vt| {
        FromEndPart(d, v, |vt|, f, 2);
        assert GetOptionalFieldOffset(d, table, f) == U16(vt, f);
      }
      if f in fields {
        var i :| 0 <= i < |fs| && fs[i].id == f;
        PosOfAt(fs, i, table);
      } else {
        PosOfAbsent(fs, f, table);
      }
    }
  }

  /** One more field, pushed at the front. */
  lemma PlacedSnoc(d: seq<byte>, start: nat, fs: seq<FieldLoc>, fields: map<nat, Stored>, id: nat, e: seq<byte>, pad: seq<byte>)
    requires Placed(d, start, fs, fields) && id !in fields && start <= |d| && 0 < |e|
    requires VTABLE_HEADER <= id < 0xFFFE && id % 2 == 0
    ensures var off := |e + pad + d|;
            Placed(e + pad + d, start, fs + [FieldLoc(off, id)], fields[id := Stored(off, e)])
  {
    hide Placed, DistinctIds, Located, ValuesAt, Covered;
    var off := |e + pad + d|;
    PlacedParts(d, start, fs, fields);
    IdsSnoc(|d|, start, fs, fields, id, off);
    LocatedSnoc(|d|, start, fs, fields, id, off, e);
    ValuesSnoc(d, fields, id, e, pad);
    CoveredSnoc(fs, fields, id, off, e);
    PlacedWhole(e + pad + d, start, fs + [FieldLoc(off, id)], fields[id := Stored(off, e)]);
  }

  lemma PlacedParts(d: seq<byte>, start: nat, fs: seq<FieldLoc>, fields: map<nat, Stored>)
    requires Placed(d, start, fs, fields)
    ensures DistinctIds(fs) && Located(|d|, start, fs, fields) && ValuesAt(d, fields) && Covered(fs, fields)
  {
  }

  lemma PlacedWhole(d: seq<byte>, start: nat, fs: seq<FieldLoc>, fields: map<nat, Stored>)
    requires DistinctIds(fs) && Located(|d|, start, fs, fields) && ValuesAt(d, fields) && Covered(fs, fields)
    ensures Placed(d, start, fs, fields)
  {
  }

  lemma IdsSnoc(size: nat, start: nat, fs: seq<FieldLoc>, fields: map<nat, Stored>, id: nat, off: nat)
    requires DistinctIds(fs) && Located(size, start, fs, fields) && id !in fields
    ensures DistinctIds(fs + [FieldLoc(off, id)])
  {
  }

  lemma LocatedSnoc(size: nat, start: nat, fs: seq<FieldLoc>, fields: map<nat, Stored>, id: nat, off: nat, e: seq<byte>)
    requires Located(size, start, fs, fields) && id !in fields && off >= size && start < off
    requires VTABLE_HEADER <= id < 0xFFFE && id % 2 == 0
    ensures Located(off, start, fs + [FieldLoc(off, id)], fields[id := Stored(off, e)])
  {
  }

  lemma ValuesSnoc(d: seq<byte>, fields: map<nat, Stored>, id: nat, e: seq<byte>, pad: seq<byte>)
    requires ValuesAt(d, fields) && id !in fields
    ensures ValuesAt(e + pad + d, fields[id := Stored(|e + pad + d|, e)])
  {
    var d', fields' := e + pad + d, fields[id := Stored(|e + pad + d|, e)];
    forall f | f in fields'
      ensures |fields'[f].value| <= fields'[f].at <= |d'| && FromEnd(d', fields'[f].at, |fields'[f].value|) == fields'[f].value
    {
      if f != id { FromEndBelow(e + pad, d, fields[f].at, |fields[f].value|); }
    }
  }

  lemma CoveredSnoc(fs: seq<FieldLoc>, fields: map<nat, Stored>, id: nat, off: nat, e: seq<byte>)
    requires Covered(fs, fields)
    ensures Covered(fs + [FieldLoc(off, id)], fields[id := Stored(off, e)])
  {
    var fs', fields' := fs + [FieldLoc(off, id)], fields[id := Stored(off, e)];
    forall f | f in fields' ensures exists i :: 0 <= i < |fs'| && fs'[i].id == f {
      if f != id {
        var i :| 0 <= i < |fs| && fs[i].id == f;
        assert fs'[i].id == f;
      } else {
        assert fs'[|fs|].id == id;
      }
    }
  }

  /** What holds of a builder's buffer and of what it remembers. */
  ghost predicate Shape(d: seq<byte>, base: seq<byte>, nested: bool, maxVoffset: nat, vtables: seq<nat>,
                        fields: seq<FieldLoc>, current: map<nat, Stored>, tables: map<nat, map<nat, Stored>>)
  {
    && |base| <= |d| && d[|d| - |base|..] == base
    && (!nested ==> base == d && fields == [] && current == map[] && maxVoffset == 0)
    && maxVoffset % 2 == 0 && maxVoffset < 0xFFFE
    && (forall i :: 0 <= i < |fields| ==> fields[i].id <= maxVoffset)
    && Placed(d, |base|, fields, current)
    && TablesRead(base, vtables, tables)
  }

  ghost predicate TablesRead(d: seq<byte>, vtables: seq<nat>, tables: map<nat, map<nat, Stored>>) {
    && (forall i :: 0 <= i < |vtables| ==> KnownVTable(d, vtables[i]))
    && (forall t :: t in tables ==> ReadsAs(d, t, tables[t]))
  }

  lemma TablesReadBelow(x: seq<byte>, d: seq<byte>, vtables: seq<nat>, tables: map<nat, map<nat, Stored>>)
    requires TablesRead(d, vtables, tables)
    ensures TablesRead(x + d, vtables, tables)
  {
    hide KnownVTable, ReadsAs;
    forall i | 0 <= i < |vtables| ensures KnownVTable(x + d, vtables[i]) { KnownBelow(x, d, vtables[i]); }
    forall t | t in tables ensures ReadsAs(x + d, t, tables[t]) { ReadsAsBelow(x, d, t, tables[t]); }
  }

  lemma DistinctBelow(x: seq<byte>, d: seq<byte>, vtables: seq<nat>, tables: map<nat, map<nat, Stored>>)
    requires TablesRead(d, vtables, tables)
    ensures forall i :: 0 <= i < |vtables| ==> VTableOf(x + d, vtables[i]) == VTableOf(d, vtables[i])
    ensures Distinct(d, vtables) ==> Distinct(x + d, vtables)
  {
    hide VTableOf, ReadsAs, FromLE, FromEnd;
    forall i | 0 <= i < |vtables| ensures VTableOf(x + d, vtables[i]) == VTableOf(d, vtables[i]) {
      assert KnownVTable(d, vtables[i]);
      VTableOfBelow(x, d, vtables[i]);
    }
  }

  /** Between tables, anything may be pushed. */
  lemma ShapePush(x: seq<byte>, d: seq<byte>, vtables: seq<nat>, tables: map<nat, map<nat, Stored>>)
    requires Shape(d, d, false, 0, vtables, [], map[], tables)
    ensures Shape(x + d, x + d, false, 0, vtables, [], map[], tables)
  {
    TablesReadBelow(x, d, vtables, tables);
  }

  lemma ShapePad(x: seq<byte>, d: seq<byte>, base: seq<byte>, maxVoffset: nat, vtables: seq<nat>,
                 fields: seq<FieldLoc>, current: map<nat, Stored>, tables: map<nat, map<nat, Stored>>)
    requires Shape(d, base, true, maxVoffset, vtables, fields, current, tables)
    ensures Shape(x + d, base, true, maxVoffset, vtables, fields, current, tables)
  {
    hide TablesRead;
    PlacedBelow(x, d, |base|, fields, current);
    BaseBelow(x, d, base);
  }

  lemma ShapeAdd(d: seq<byte>, base: seq<byte>, maxVoffset: nat, vtables: seq<nat>, fields: seq<FieldLoc>,
                 current: map<nat, Stored>, tables: map<nat, map<nat, Stored>>, id: nat, e: seq<byte>, pad: seq<byte>)
    requires Shape(d, base, true, maxVoffset, vtables, fields, current, tables)
    requires id !in current && 0 < |e| && VTABLE_HEADER <= id < 0xFFFE && id % 2 == 0
    ensures var off := |e + pad + d|;
            Shape(e + pad + d, base, true, if id > maxVoffset then id else maxVoffset, vtables,
                  fields + [FieldLoc(off, id)], current[id := Stored(off, e)], tables)
  {
    PlacedSnoc(d, |base|, fields, current, id, e, pad);
    hide TablesRead, Placed;
    BaseBelow(e + pad, d, base);
  }

  /** The vtable that a table at `table` needs. */
  predicate IsVTable(vt: seq<byte>, fs: seq<FieldLoc>, table: nat) {
    && VTABLE_HEADER <= |vt| < 0x1_0000 && |vt| % 2 == 0 && U16(vt, 0) == |vt| && Entered(vt, fs, table)
  }

  /** The table is finished: with its vtable just before it, or with one from before. */
  lemma ShapeEnd(d0: seq<byte>, base: seq<byte>, maxVoffset: nat, vtables: seq<nat>, fs: seq<FieldLoc>,
                 current: map<nat, Stored>, tables: map<nat, map<nat, Stored>>,
                 vt: seq<byte>, pad: seq<byte>, front: seq<byte>, v: nat)
    requires Shape(d0, base, true, maxVoffset, vtables, fs, current, tables)
    requires IsVTable(vt, fs, |d0| + |pad| + 4) && maxVoffset < |vt|
    requires |front| + 4 + |pad| + |d0| <= MAX_BUFFER_SIZE
    requires if front == [] then v <= |base| && |vt| <= v && FromEnd(base, v, |vt|) == vt
             else front == vt && v == |front| + 4 + |pad| + |d0|
    ensures var table := |d0| + |pad| + 4;
            var d := front + LE(Unsigned(v - table), 4) + pad + d0;
            Shape(d, d, false, 0, if front == [] then vtables else vtables + [v], [], map[], tables[table := current])
  {
    hide DistinctIds, Located, ValuesAt, Covered, Placed, TablesRead, KnownVTable, ReadsAs, LE, Entered;
    var table, soff := |d0| + |pad| + 4, LE(Unsigned(v - (|d0| + |pad| + 4)), 4);
    var x := front + soff + pad;
    var d := x + d0;
    var y := x + d0[..|d0| - |base|];
    assert d == y + base;
    PlacedBelow(x, d0, |base|, fs, current);
    FieldsBefore(d0, |base|, fs, current, table);
    assert FromEnd(d, table, 4) == soff;
    if front == [] { FromEndBelow(y, base, v, |vt|); }
    assert FromEnd(d, v, |vt|) == vt;
    TableReads(d, table, v, vt, |base|, fs, current);
    TablesReadBelow(y, base, vtables, tables);
    TablesReadOne(d, vtables, tables, table, current, v, vt, front != []);
    PlacedNone(d, |d|);
  }

  lemma FieldsBefore(d: seq<byte>, start: nat, fs: seq<FieldLoc>, fields: map<nat, Stored>, table: nat)
    requires Placed(d, start, fs, fields) && |d| < table
    ensures forall i :: 0 <= i < |fs| ==> fs[i].off < table
  {
  }

  lemma PlacedNone(d: seq<byte>, start: nat)
    ensures Placed(d, start, [], map[])
  {
  }

  lemma TablesReadOne(d: seq<byte>, vtables: seq<nat>, tables: map<nat, map<nat, Stored>>, table: nat,
                      current: map<nat, Stored>, v: nat, vt: seq<byte>, isNew: bool)
    requires TablesRead(d, vtables, tables) && ReadsAs(d, table, current)
    requires VTABLE_HEADER <= |vt| <= v <= |d| && |vt| % 2 == 0 && FromEnd(d, v, |vt|) == vt && U16(vt, 0) == |vt|
    ensures TablesRead(d, if isNew then vtables + [v] else vtables, tables[table := current])
  {
    hide ReadsAs;
    FromEndPart(d, v, |vt|, 0, 2);
  }

  // ---------------------------------------------------------------- aligned scalars

  /** Each field lies at a multiple of its size from the buffer's end, and none is larger than
      `m`. */
  ghost predicate AlignedFields(fields: map<nat, Stored>, m: nat) {
    forall f :: f in fields ==>
      var s := fields[f]; FieldId(f) && IsScalarSize(|s.value|) && |s.value| <= m && s.at % |s.value| == 0
  }

  ghost predicate AlignedTables(tables: map<nat, map<nat, Stored>>, m: nat) {
    forall t :: t in tables ==> t % 4 == 0 && m >= 4 && AlignedFields(tables[t], m)
  }

  lemma AlignedMore(fields: map<nat, Stored>, tables: map<nat, map<nat, Stored>>, m: nat, m': nat)
    requires AlignedFields(fields, m) && AlignedTables(tables, m) && m <= m'
    ensures AlignedFields(fields, m') && AlignedTables(tables, m')
  {
  }

  lemma AlignedAdd(fields: map<nat, Stored>, m: nat, f: nat, s: Stored)
    requires AlignedFields(fields, m) && FieldId(f) && IsScalarSize(|s.value|) && |s.value| <= m && s.at % |s.value| == 0
    ensures AlignedFields(fields[f := s], m)
  {
  }

  lemma AlignedEnd(tables: map<nat, map<nat, Stored>>, current: map<nat, Stored>, m: nat, table: nat)
    requires AlignedTables(tables, m) && AlignedFields(current, m) && table % 4 == 0 && m >= 4
    ensures AlignedTables(tables[table := current], m) && AlignedFields(map[], m)
  {
    hide AlignedFields;
    assert AlignedFields(map[], m) by { AlignedNone(m); }
  }

  lemma AlignedNone(m: nat)
    ensures AlignedFields(map[], m) && AlignedTables(map[], m)
  {
  }

  /** In a buffer whose size is a multiple of the largest alignment, what is aligned seen from
      the end is aligned seen from the front. */
  lemma AlignedFromFront(size: nat, m: nat, at: nat, n: nat)
    requires IsScalarSize(m) && IsScalarSize(n) && n <= m && size % m == 0 && at % n == 0 && at <= size
    ensures (size - at) % n == 0
  {
  }

  /** Seen from the front of the buffer, every field of every table lies at a multiple of its
      size, and every table at a multiple of four. */
  ghost predicate AllInPlace(size: nat, tables: map<nat, map<nat, Stored>>) {
    forall t :: t in tables ==>
      && t <= size && (size - t) % 4 == 0
      && forall f :: f in tables[t] ==> InPlace(size, tables[t][f])
  }

  ghost predicate InPlace(size: nat, s: Stored) {
    s.at <= size && IsScalarSize(|s.value|) && (size - s.at) % |s.value| == 0
  }

  lemma AllInPlaceAt(size: nat, m: nat, tables: map<nat, map<nat, Stored>>)
    requires IsScalarSize(m) && size % m == 0 && AlignedTables(tables, m)
    requires forall t :: t in tables ==> t <= size && forall f :: f in tables[t] ==> tables[t][f].at <= size
    ensures AllInPlace(size, tables)
  {
    forall t | t in tables ensures (size - t) % 4 == 0 && forall f :: f in tables[t] ==> InPlace(size, tables[t][f]) {
      AlignedFromFront(size, m, t, 4);
      forall f | f in tables[t] ensures InPlace(size, tables[t][f]) {
        AlignedFromFront(size, m, tables[t][f].at, |tables[t][f].value|);
      }
    }
  }

  function Larger(a: nat, b: nat): (n: nat) { if b > a then b else a }

  lemma PushedParts(e: seq<byte>, d: seq<byte>)
    requires IsScalarSize(|e|)
    ensures Pushed(e, d) == e + (Zeros(PaddingBytes(|d|, |e|)) + d)
  {
  }

  /** The size of the finished buffer: padding for the root's word, then for the word itself. */
  lemma FinalSize(size: nat, m: nat)
    requires IsScalarSize(m)
    ensures var size1 := size + PaddingBytes(size + 4, m);
            (size1 + PaddingBytes(size1, 4) + 4) % Larger(m, 4) == 0
  {
  }

  lemma TablesInPlace(d: seq<byte>, m: nat, tables: map<nat, map<nat, Stored>>)
    requires IsScalarSize(m) && |d| % m == 0 && AlignedTables(tables, m)
    requires forall t :: t in tables ==> ReadsAs(d, t, tables[t])
    ensures AllInPlace(|d|, tables)
  {
    hide ReadsAs, AllInPlace;
    forall t | t in tables ensures t <= |d| && forall f :: f in tables[t] ==> tables[t][f].at <= |d| {
      FieldsInside(d, t, tables[t]);
    }
    AllInPlaceAt(|d|, m, tables);
  }

  lemma FieldsInside(d: seq<byte>, t: nat, fields: map<nat, Stored>)
    requires ReadsAs(d, t, fields) && forall f :: f in fields ==> FieldId(f)
    ensures t <= |d| && forall f :: f in fields ==> fields[f].at <= |d|
  {
    hide GetOptionalFieldOffset;
    forall f | f in fields ensures fields[f].at <= |d| { HoldsEach(d, t, fields, f); }
  }

  /** A scalar pushed at the front of `d`, with its padding. */
  function Pushed(e: seq<byte>, d: seq<byte>): (r: seq<byte>)
    requires IsScalarSize(|e|)
    ensures |r| == |e| + PaddingBytes(|d|, |e|) + |d|
  {
    e + Zeros(PaddingBytes(|d|, |e|)) + d
  }

  // ---------------------------------------------------------------- the builder

  /** `d` is `d0` with more bytes at its front. */
  predicate Extends(d: seq<byte>, d0: seq<byte>) {
    |d0| <= |d| && d[|d| - |d0|..] == d0
  }

  lemma ExtendsBy(x: seq<byte>, d: seq<byte>)
    ensures Extends(x + d, d)
  {
  }

  /** The size of the buffer once a scalar is pushed. */
  function SizeAfter(size: nat, scalarSize: nat): (n: nat)
    requires IsScalarSize(scalarSize)
  {
    size + PaddingBytes(size, scalarSize) + scalarSize
  }

  /** The size of the vtable that reaches the field at `maxVoffset`. */
  function VTableBytes(maxVoffset: nat): (n: nat) {
    if maxVoffset + 2 < VTABLE_HEADER then VTABLE_HEADER else maxVoffset + 2
  }

  predicate FieldId(field: nat) {
    VTABLE_HEADER <= field < 0xFFFE && field % 2 == 0
  }

  class FlatBufferBuilder {
    const vec: VectorDownward
    var numFieldLoc: nat
    var maxVoffset: nat
    var nested: bool
    var finished: bool
    var minalign: nat
    var forceDefaults: bool
    var dedupVtables: bool
    /** The serialized bytes when the table under construction was started. */
    ghost var base: seq<byte>
    /** The scratch pad: vtables that can be shared, then fields of this table. */
    ghost var vtables: seq<nat>
    ghost var fields: seq<FieldLoc>
    /** What has been added to this table, and to every finished one. */
    ghost var current: map<nat, Stored>
    ghost var tables: map<nat, map<nat, Stored>>

    ghost predicate Valid()
      reads this, vec, vec.buf
    {
      && vec.Valid() && vec.size <= MAX_BUFFER_SIZE && numFieldLoc == |fields| && IsScalarSize(minalign)
      && vec.Scratch() == Words(vtables) + Locs(fields)
      && Shape(vec.Data(), base, nested, maxVoffset, vtables, fields, current, tables)
      && AlignedFields(current, minalign) && AlignedTables(tables, minalign)
    }

    /** Vtables are shared: no two that are remembered have the same bytes. */
    ghost predicate NoneTwice()
      reads this
    {
      Distinct(base, vtables)
    }

    constructor (initialSize: nat, minalign: nat)
      requires minalign > 0
      ensures NoneTwice()
      ensures Valid() && !nested && tables == map[] && vec.Data() == [] && fresh(vec) && fresh(vec.buf)
    {
      vec := new VectorDownward(initialSize, minalign);
      numFieldLoc, maxVoffset, nested, finished, this.minalign := 0, 0, false, false, 1;
      forceDefaults, dedupVtables := false, true;
      base, vtables, fields, current, tables := [], [], [], map[], map[];
    }

    /** Align (flatbuffers/flatbuffer_builder.h:293-296). */
    method Align(elemSize: nat)
      requires vec.Valid() && IsScalarSize(elemSize) && IsScalarSize(minalign)
      modifies this`minalign, vec, vec.buf
      ensures vec.Valid() && IsScalarSize(minalign) && (vec.buf == old(vec.buf) || fresh(vec.buf)) && vec.Scratch() == old(vec.Scratch())
      ensures vec.Data() == Zeros(PaddingBytes(old(vec.size), elemSize)) + old(vec.Data())
      ensures minalign == Larger(old(minalign), elemSize)
    {
      if elemSize > minalign { minalign := elemSize; }
      vec.Fill(PaddingBytes(vec.size, elemSize));
    }

    /** PushElement (flatbuffers/flatbuffer_builder.h:313-319): the scalar, aligned. */
    method PushElement(e: seq<byte>) returns (off: nat)
      requires vec.Valid() && IsScalarSize(|e|) && IsScalarSize(minalign)
      modifies this`minalign, vec, vec.buf
      ensures vec.Valid() && IsScalarSize(minalign) && (vec.buf == old(vec.buf) || fresh(vec.buf)) && vec.Scratch() == old(vec.Scratch())
      ensures vec.Data() == Pushed(e, old(vec.Data()))
      ensures off == vec.size && Aligned(off, |e|) && minalign == Larger(old(minalign), |e|)
    {
      hide Aligned, PaddingBytes, Zeros, Pushed, Larger, IsScalarSize;
      PushedParts(e, vec.Data());
      Align(|e|);
      AlignedNext(vec.size, |e|);
      vec.Push(e);
      off := vec.size;
    }

    /** TrackField (flatbuffers/flatbuffer_builder.h:329-334). */
    method TrackField(field: nat, off: nat)
      requires vec.Valid() && vec.Scratch() == Words(vtables) + Locs(fields)
      modifies this`numFieldLoc, this`maxVoffset, this`fields, vec, vec.buf
      ensures vec.Valid() && (vec.buf == old(vec.buf) || fresh(vec.buf)) && vec.Data() == old(vec.Data())
      ensures fields == old(fields) + [FieldLoc(off, field)] && vec.Scratch() == Words(vtables) + Locs(fields)
      ensures numFieldLoc == old(numFieldLoc) + 1
      ensures maxVoffset == if field > old(maxVoffset) then field else old(maxVoffset)
    {
      hide Loc, Words, Locs;
      LocsSnoc(fields, FieldLoc(off, field));
      vec.ScratchPush(Loc(FieldLoc(off, field)));
      numFieldLoc := numFieldLoc + 1;
      if field > maxVoffset { maxVoffset := field; }
      fields := fields + [FieldLoc(off, field)];
    }

    /** `TrackField(field, PushElement(e))`. */
    method PushField(field: nat, e: seq<byte>)
      requires Valid() && nested && IsScalarSize(|e|)
      requires FieldId(field) && field !in current && SizeAfter(vec.size, |e|) <= MAX_BUFFER_SIZE
      modifies this`numFieldLoc, this`maxVoffset, this`fields, this`minalign, this`current, vec, vec.buf
      ensures Valid() && (vec.buf == old(vec.buf) || fresh(vec.buf))
      ensures vec.Data() == Pushed(e, old(vec.Data()))
      ensures current == old(current)[field := Stored(vec.size, e)]
    {
      hide Shape, TablesRead, Words, Locs, PaddingBytes, Zeros, AlignedFields, AlignedTables;
      ghost var d, pad := vec.Data(), Zeros(PaddingBytes(vec.size, |e|));
      ShapeAdd(d, base, maxVoffset, vtables, fields, current, tables, field, e, pad);
      ghost var d' := e + pad + d;
      var off := PushElement(e);
      assert vec.Data() == d' && off == |d'|;
      TrackField(field, off);
      assert vec.Data() == d';
      AlignedMore(current, tables, old(minalign), minalign);
      AlignedAdd(current, minalign, field, Stored(off, e));
      current := current[field := Stored(off, e)];
    }

    /** AddElement (flatbuffers/flatbuffer_builder.h:337-341): the default is not stored. */
    method AddElement(field: nat, e: seq<byte>, def: seq<byte>)
      requires Valid() && nested && |e| == |def| && IsScalarSize(|e|) && FieldId(field)
      requires e != def || forceDefaults ==> field !in current && SizeAfter(vec.size, |e|) <= MAX_BUFFER_SIZE
      modifies this`numFieldLoc, this`maxVoffset, this`fields, this`minalign, this`current, vec, vec.buf
      ensures Valid() && (vec.buf == old(vec.buf) || fresh(vec.buf))
      ensures if e == def && !forceDefaults then current == old(current) && vec.Data() == old(vec.Data())
              else vec.Data() == Pushed(e, old(vec.Data())) && current == old(current)[field := Stored(vec.size, e)]
    {
      hide *;
      if e == def && !forceDefaults { return; }
      PushField(field, e);
    }

    /** AddOffset (flatbuffers/flatbuffer_builder.h:347-350) and ReferTo (371-378, 392-395):
        what is stored leads from the field to `off`. */
    method AddOffset(field: nat, off: nat)
      requires Valid() && nested && off <= vec.size && FieldId(field)
      requires off != 0 ==> field !in current && SizeAfter(vec.size, 4) <= MAX_BUFFER_SIZE
      modifies this`numFieldLoc, this`maxVoffset, this`fields, this`minalign, this`current, vec, vec.buf
      ensures Valid() && (vec.buf == old(vec.buf) || fresh(vec.buf))
      ensures off == 0 ==> current == old(current) && vec.Data() == old(vec.Data())
      ensures off != 0 ==> field in current && current == old(current)[field := current[field]] && |current[field].value| == 4
      ensures off != 0 ==> current[field].at == vec.size && current[field].at - FromLE(current[field].value) == off
      ensures Extends(vec.Data(), old(vec.Data()))
      ensures off != 0 ==> vec.size == SizeAfter(old(vec.size), 4)
    {
      hide Shape, TablesRead, Words, Locs, Aligned, Zeros, LE, FromLE, AlignedFields, AlignedTables;
      if off == 0 { return; }
      ghost var d := vec.Data();
      ghost var pad;
      var ref;
      ref, pad := ReferTo(off);
      ShapePad(pad, d, base, maxVoffset, vtables, fields, current, tables);
      AlignedMore(current, tables, old(minalign), minalign);
      Widths();
      FromLEInvertsLE(ref, 4);
      FromLEInvertsLE(0, 4);
      AddElement(field, LE(ref, 4), LE(0, 4));
    }

    /** StartTable (flatbuffers/flatbuffer_builder.h:413-417). */
    method StartTable() returns (start: nat)
      requires Valid() && !nested
      modifies this`nested
      ensures Valid() && nested && start == vec.size == |base| && current == map[]
    {
      nested := true;
      start := vec.size;
    }

    /** The `i`-th FieldLoc of the scratch pad. */
    method ReadFieldLoc(i: nat) returns (off: nat, id: nat)
      requires vec.Valid() && vec.Scratch() == Words(vtables) + Locs(fields) && i < numFieldLoc == |fields|
      requires fields[i].off < 0x1_0000_0000 && fields[i].id < 0x1_0000
      ensures off == fields[i].off && id == fields[i].id
    {
      hide LE, FromLE, Words, Locs;
      ReadLoc(vec.Scratch(), vtables, fields, i);
      var scratch := vec.buf[..vec.scratch];
      var at := vec.scratch - (numFieldLoc - i) * 8;
      off, id := FromLE(scratch[at..at + 4]), FromLE(scratch[at + 4..at + 6]);
    }

    /** The vtable in front of the table (flatbuffers/flatbuffer_builder.h:435-455). */
    method WriteVTable(start: nat, table: nat, size: nat, ghost d1: seq<byte>) returns (ghost vt: seq<byte>)
      requires vec.Valid() && vec.Data() == Zeros(size) + d1 && vec.Scratch() == Words(vtables) + Locs(fields)
      requires numFieldLoc == |fields| && VTABLE_HEADER <= size < 0x1_0000 && size % 2 == 0
      requires start <= table && table - start < 0x1_0000 && table <= MAX_BUFFER_SIZE && DistinctIds(fields)
      requires forall i :: 0 <= i < |fields| ==>
                 VTABLE_HEADER <= fields[i].id < size - 1 && fields[i].id % 2 == 0 && start < fields[i].off < table
      modifies vec.buf
      ensures vec.Valid() && vec.Scratch() == old(vec.Scratch())
      ensures |vt| == size && IsVTable(vt, fields, table) && vec.Data() == vt + d1
    {
      hide Words, Locs, Loc, LE, FromLE, Zeros, Entered, DistinctIds;
      vt := Zeros(size);
      BlankVTable(size, table);
      vt := Enter(2, table - start, vt, d1);
      vt := Enter(0, size, vt, d1);
      HeaderKeeps(vt, size, table - start, table);
      assert fields[..0] == [];
      for i := 0 to numFieldLoc
        modifies vec.buf
        invariant vec.Valid() && vec.Scratch() == old(vec.Scratch()) && |vt| == size && vec.Data() == vt + d1
        invariant U16(vt, 0) == size && Entered(vt, fields[..i], table)
      {
        var off, id := ReadFieldLoc(i);
        // no field is set twice (flatbuffers/flatbuffer_builder.h:451-453)
        NotTwice(vt, fields, i, table);
        assert U16(vt, id) == 0;
        EnterOne(vt, fields[..i], fields[i], table);
        U16Patch(vt, id, table - off, 0);
        vt := Enter(id, table - off, vt, d1);
        assert fields[..i + 1] == fields[..i] + [fields[i]];
      }
      assert fields[..|fields|] == fields;
    }

    /** `WriteScalar<voffset_t>(buf_.data() + at, n)`. */
    method Enter(at: nat, n: nat, ghost vt: seq<byte>, ghost d1: seq<byte>) returns (ghost vt': seq<byte>)
      requires vec.Valid() && vec.Data() == vt + d1 && at + 2 <= |vt|
      modifies vec.buf
      ensures vec.Valid() && vec.Scratch() == old(vec.Scratch())
      ensures vt' == Patch(vt, at, LE(n, 2)) && vec.Data() == vt' + d1
    {
      hide LE;
      vt' := Patch(vt, at, LE(n, 2));
      assert Patch(vt + d1, at, LE(n, 2)) == vt' + d1;
      vec.Write(at, LE(n, 2));
    }

    /** The search for a vtable of the same layout (flatbuffers/flatbuffer_builder.h:457-473):
        where it is, or the size of the buffer if there is none. */
    method FindVTable(ghost vt: seq<byte>, ghost d1: seq<byte>) returns (vtUse: nat)
      requires vec.Valid() && vec.Data() == vt + d1 && vec.Scratch() == Words(vtables) && vec.size <= MAX_BUFFER_SIZE
      requires VTABLE_HEADER <= |vt| && U16(vt, 0) == |vt|
      requires |base| <= |d1| && d1[|d1| - |base|..] == base && TablesRead(base, vtables, tables)
      ensures vtUse == vec.size || (vtUse in vtables && vtUse <= |base| && |vt| <= vtUse && FromEnd(base, vtUse, |vt|) == vt)
      ensures dedupVtables && vtUse == vec.size ==> Unknown(base, vtables, vt)
    {
      hide Words, LE, FromLE, TablesRead, Entered, DistinctIds, VTableOf;
      vtUse := vec.size;
      if !dedupVtables { return; }
      var vt1 := vec.buf[vec.cur..];
      var vt1Size := FromLE(vt1[0..2]);
      assert vt1[0..2] == vt[0..2] && vt1[..vt1Size] == vt;
      var n := vec.scratch / 4;
      for i := 0 to n
        invariant forall j :: 0 <= j < i ==> VTableOf(base, vtables[j]) != vt
      {
        VTableIn(d1, vt, i);
        var offset := ReadWord(i);
        var vt2 := vec.buf[vec.buf.Length - offset..];
        var vt2Size := FromLE(vt2[..2]);
        if vt1Size != vt2Size || vt2[..vt1Size] != vt1[..vt1Size] { continue; }
        return offset;
      }
    }

    /** The `i`-th word of the scratch pad. */
    method ReadWord(i: nat) returns (n: nat)
      requires vec.Valid() && vec.Scratch() == Words(vtables) && i < |vtables| && vtables[i] < 0x1_0000_0000
      ensures n == vtables[i]
    {
      hide LE, FromLE, Words;
      WordAt(vtables, i);
      Widths();
      FromLEInvertsLE(vtables[i], 4);
      var scratch := vec.buf[..vec.scratch];
      n := FromLE(scratch[4 * i..4 * i + 4]);
    }

    /** A remembered vtable, seen from the front of the buffer. */
    lemma VTableIn(d1: seq<byte>, vt: seq<byte>, i: nat)
      requires vec.Valid() && vec.Data() == vt + d1 && i < |vtables|
      requires |base| <= |d1| && d1[|d1| - |base|..] == base && TablesRead(base, vtables, tables)
      ensures var v := vtables[i];
              && 2 <= v <= |base| && v <= vec.buf.Length
              && var at := vec.buf[vec.buf.Length - v..];
                 var n := FromLE(at[..2]);
                 n <= v && at[..n] == FromEnd(base, v, n) == VTableOf(base, v)
    {
      hide FromLE, ReadsAs;
      var v := vtables[i];
      assert KnownVTable(base, v);
      var at := vec.buf[vec.buf.Length - v..];
      var x := vt + d1[..|d1| - |base|];
      assert vec.Data() == x + base;
      assert at == base[|base| - v..];
      assert at[..2] == FromEnd(base, v, 2);
    }

    /** The table's own start and its vtable (flatbuffers/flatbuffer_builder.h:428-456). */
    method PushVTable(start: nat) returns (table: nat, ghost vt: seq<byte>, ghost pad: seq<byte>)
      requires Valid() && nested && start == |base|
      requires vec.size + PaddingBytes(vec.size, 4) + 4 - start < 0x1_0000
      requires SizeAfter(vec.size, 4) + VTableBytes(maxVoffset) <= MAX_BUFFER_SIZE
      modifies this`numFieldLoc, this`maxVoffset, this`fields, this`minalign, vec, vec.buf
      ensures vec.Valid() && (vec.buf == old(vec.buf) || fresh(vec.buf)) && vec.size <= MAX_BUFFER_SIZE
      ensures vec.Data() == vt + ([0, 0, 0, 0] + (pad + old(vec.Data()))) && vec.Scratch() == Words(vtables)
      ensures table == |old(vec.Data())| + |pad| + 4 && IsVTable(vt, old(fields), table) && old(maxVoffset) < |vt|
      ensures fields == [] && numFieldLoc == 0 && maxVoffset == 0 && IsScalarSize(minalign)
      ensures minalign == Larger(old(minalign), 4) && table % 4 == 0
      ensures table == SizeAfter(old(vec.size), 4) && |vt| == VTableBytes(old(maxVoffset))
    {
      hide Words, Locs, Loc, LE, FromLE, Entered, DistinctIds, Located, ValuesAt, Covered, Placed, TablesRead, Zeros,
           PaddingBytes, Shape, IsVTable, AlignedFields, AlignedTables;
      ghost var d0 := vec.Data();
      FieldBounds(d0, base, maxVoffset, vtables, fields, current, tables);
      pad := Zeros(PaddingBytes(vec.size, 4));
      table := PushElement([0, 0, 0, 0]);
      ghost var d1 := [0, 0, 0, 0] + (pad + d0);
      assert vec.Data() == d1;
      vt := FillVTable(start, table, d1);
    }

    method FillVTable(start: nat, table: nat, ghost d1: seq<byte>) returns (ghost vt: seq<byte>)
      requires vec.Valid() && vec.Data() == d1 && vec.Scratch() == Words(vtables) + Locs(fields) && table == |d1|
      requires numFieldLoc == |fields| && maxVoffset < 0xFFFE && maxVoffset % 2 == 0
      requires table + VTableBytes(maxVoffset) <= MAX_BUFFER_SIZE
      requires start <= table && table - start < 0x1_0000 && DistinctIds(fields)
      requires forall i :: 0 <= i < |fields| ==>
                 VTABLE_HEADER <= fields[i].id <= maxVoffset && fields[i].id % 2 == 0 && start < fields[i].off < table
      modifies this`numFieldLoc, this`maxVoffset, this`fields, vec, vec.buf
      ensures vec.Valid() && (vec.buf == old(vec.buf) || fresh(vec.buf)) && vec.size <= MAX_BUFFER_SIZE
      ensures vec.Data() == vt + d1 && vec.Scratch() == Words(vtables)
      ensures IsVTable(vt, old(fields), table) && old(maxVoffset) < |vt| == VTableBytes(old(maxVoffset))
      ensures fields == [] && numFieldLoc == 0 && maxVoffset == 0
    {
      hide Words, Locs, Loc, LE, FromLE, Entered, DistinctIds, Zeros, IsVTable;
      maxVoffset := VTableBytes(maxVoffset);
      vec.Fill(maxVoffset);
      vt := WriteVTable(start, table, maxVoffset, d1);
      ClearOffsets();
    }

    /** Find the vtable to use and lead the table to it. */
    method LinkTable(table: nat, ghost vt: seq<byte>, ghost rest: seq<byte>) returns (vtUse: nat)
      requires vec.Valid() && vec.Data() == vt + ([0, 0, 0, 0] + rest) && vec.Scratch() == Words(vtables)
      requires table == 4 + |rest| && vec.size <= MAX_BUFFER_SIZE
      requires VTABLE_HEADER <= |vt| && U16(vt, 0) == |vt|
      requires |base| <= |rest| && rest[|rest| - |base|..] == base && TablesRead(base, vtables, tables)
      modifies this`vtables, vec, vec.buf
      ensures vec.Valid() && (vec.buf == old(vec.buf) || fresh(vec.buf)) && vec.size <= MAX_BUFFER_SIZE
      ensures vec.Scratch() == Words(vtables) && Linked(base, vec.Data(), table, vt, rest, vtUse)
      ensures vtables == if vtUse < table then old(vtables) else old(vtables) + [vtUse]
      ensures if vtUse < table then vtUse in vtables else dedupVtables ==> Unknown(base, old(vtables), vt)
      ensures vec.size <= |vt| + table
    {
      hide Words, LE, FromLE, TablesRead, U16, Linked, Unknown;
      BaseBelow([0, 0, 0, 0], rest, base);
      vtUse := FindVTable(vt, [0, 0, 0, 0] + rest);
      Link(table, vtUse, vt, rest);
      LinkedIs(base, vec.Data(), table, vt, rest, vtUse);
    }

    lemma LinkedIs(base: seq<byte>, d: seq<byte>, table: nat, vt: seq<byte>, rest: seq<byte>, v: nat)
      requires table == 4 + |rest| && |vt| + table <= MAX_BUFFER_SIZE && |base| <= |rest|
      requires v == |vt| + table || (v <= |base| && |vt| <= v && FromEnd(base, v, |vt|) == vt)
      requires d == (if v < table then [] else vt) + LE(Unsigned(v - table), 4) + rest
      ensures Linked(base, d, table, vt, rest, v)
    {
      hide LE, FromEnd;
    }

    method WriteTable(start: nat) returns (table: nat, ghost vt: seq<byte>, ghost pad: seq<byte>, vtUse: nat)
      requires Valid() && nested && start == |base|
      requires vec.size + PaddingBytes(vec.size, 4) + 4 - start < 0x1_0000
      requires SizeAfter(vec.size, 4) + VTableBytes(maxVoffset) <= MAX_BUFFER_SIZE
      modifies this`numFieldLoc, this`maxVoffset, this`fields, this`vtables, this`minalign, vec, vec.buf
      ensures vec.Valid() && (vec.buf == old(vec.buf) || fresh(vec.buf)) && vec.size <= MAX_BUFFER_SIZE
      ensures fields == [] && numFieldLoc == 0 && maxVoffset == 0 && vec.Scratch() == Words(vtables) && IsScalarSize(minalign)
      ensures IsVTable(vt, old(fields), table) && old(maxVoffset) < |vt|
      ensures Linked(base, vec.Data(), table, vt, pad + old(vec.Data()), vtUse)
      ensures vtables == if vtUse < table then old(vtables) else old(vtables) + [vtUse]
      ensures if vtUse < table then vtUse in vtables else dedupVtables ==> Unknown(base, old(vtables), vt)
      ensures AlignedFields(current, minalign) && AlignedTables(tables, minalign) && minalign >= 4 && table % 4 == 0
      ensures vec.size <= SizeAfter(old(vec.size), 4) + VTableBytes(old(maxVoffset))
    {
      hide Words, LE, FromLE, Entered, DistinctIds, Located, ValuesAt, Covered, Placed, TablesRead, ReadsAs, Shape,
           IsVTable, PaddingBytes, Zeros, Linked, AlignedFields, AlignedTables;
      ghost var d0, fs := vec.Data(), fields;
      ShapeBase(d0, base, maxVoffset, vtables, fs, current, tables);
      table, vt, pad := PushVTable(start);
      AlignedMore(current, tables, old(minalign), minalign);
      BaseBelow(pad, d0, base);
      VTableSize(vt, fs, table);
      vtUse := LinkTable(table, vt, pad + d0);
    }

    /** EndTable (flatbuffers/flatbuffer_builder.h:422-488). Whether vtables are shared or
        not, the finished table reads as exactly the fields that were added, and every
        table finished before still reads as its own. */
    method EndTable(start: nat) returns (table: nat)
      requires Valid() && nested && start == |base|
      requires vec.size + PaddingBytes(vec.size, 4) + 4 - start < 0x1_0000
      requires SizeAfter(vec.size, 4) + VTableBytes(maxVoffset) <= MAX_BUFFER_SIZE
      modifies this`numFieldLoc, this`maxVoffset, this`fields, this`vtables, this`minalign, this`nested, this`base,
               this`current, this`tables, vec, vec.buf
      ensures Valid() && !nested && current == map[] && (vec.buf == old(vec.buf) || fresh(vec.buf))
      ensures 0 < table <= vec.size && table % 4 == 0 && Extends(vec.Data(), old(vec.Data()))
      ensures tables == old(tables)[table := old(current)] && table !in old(tables)
      ensures ReadsAs(vec.Data(), table, old(current))
      ensures forall t :: t in old(tables) ==> ReadsAs(vec.Data(), t, old(tables)[t])
      ensures old(NoneTwice()) && dedupVtables ==> NoneTwice()
      ensures vec.size <= SizeAfter(old(vec.size), 4) + VTableBytes(old(maxVoffset))
    {
      hide Words, LE, FromLE, Entered, DistinctIds, Located, ValuesAt, Covered, Placed, TablesRead, ReadsAs, Shape,
           IsVTable, PaddingBytes, Zeros, Linked, Extends, Distinct, Unknown, AlignedFields, AlignedTables, IsScalarSize;
      ghost var d0, fs, maxV, vs := vec.Data(), fields, maxVoffset, vtables;
      ghost var vt, pad;
      var vtUse;
      table, vt, pad, vtUse := WriteTable(start);
      FinishTable(d0, base, maxV, vs, fs, current, tables, table, vt, pad, vtUse, vec.Data());
      if dedupVtables && Distinct(base, vs) {
        EndDistinct(d0, base, maxV, vs, fs, current, tables, table, vt, pad, vtUse, vec.Data());
      }
      AlignedEnd(tables, current, minalign, table);
      tables := tables[table := current];
      base, current, nested := vec.Data(), map[], false;
    }

    /** PreAlign (flatbuffers/flatbuffer_builder.h:520-524), for a length that is not 0. */
    method PreAlign(len: nat, alignment: nat)
      requires vec.Valid() && IsScalarSize(alignment) && IsScalarSize(minalign) && len > 0
      modifies this`minalign, vec, vec.buf
      ensures vec.Valid() && IsScalarSize(minalign) && (vec.buf == old(vec.buf) || fresh(vec.buf))
      ensures vec.Scratch() == old(vec.Scratch()) && vec.Data() == Zeros(PaddingBytes(old(vec.size) + len, alignment)) + old(vec.Data())
      ensures minalign == Larger(old(minalign), alignment)
    {
      if alignment > minalign { minalign := alignment; }
      vec.Fill(PaddingBytes(vec.size + len, alignment));
    }

    /** The bytes of a string, NUL behind, length before (CreateStringImpl). */
    method PushString(str: seq<byte>) returns (off: nat, ghost pad: seq<byte>)
      requires vec.Valid() && IsScalarSize(minalign)
      modifies this`minalign, vec, vec.buf
      ensures vec.Valid() && IsScalarSize(minalign) && (vec.buf == old(vec.buf) || fresh(vec.buf))
      ensures vec.Scratch() == old(vec.Scratch()) && |pad| < 4 && off == vec.size
      ensures vec.Data() == LE(|str|, 4) + (str + ([0] + (pad + old(vec.Data()))))
      ensures minalign == Larger(old(minalign), 4) && off % 4 == 0
    {
      hide LE, PaddingBytes, Zeros;
      ghost var d := vec.Data();
      pad := Zeros(PaddingBytes(vec.size + (|str| + 1), 4));
      PreAlign(|str| + 1, 4);
      vec.Fill(1);
      OneZero();
      vec.Push(str);
      assert vec.Data() == str + ([0] + (pad + d));
      NoPadding(vec.size, LE(|str|, 4), vec.Data());
      off := PushElement(LE(|str|, 4));
    }

    /** CreateString (flatbuffers/flatbuffer_builder.h:539-543). */
    method CreateString(str: seq<byte>) returns (off: nat)
      requires Valid() && !nested && SizeAfter(vec.size + |str| + 1, 4) <= MAX_BUFFER_SIZE
      modifies this`minalign, this`base, vec, vec.buf
      ensures Valid() && !nested && (vec.buf == old(vec.buf) || fresh(vec.buf))
      ensures off == vec.size && off % 4 == 0 && StringAt(vec.Data(), off, str) && Extends(vec.Data(), old(vec.Data()))
      ensures forall t :: t in tables ==> ReadsAs(vec.Data(), t, tables[t])
      ensures old(NoneTwice()) ==> NoneTwice()
      ensures vec.size == SizeAfter(old(vec.size) + |str| + 1, 4)
    {
      hide Words, Locs, LE, FromLE, Shape, TablesRead, ReadsAs, StringAt, Zeros, Extends, Distinct, AlignedFields, AlignedTables;
      ghost var d := vec.Data();
      ShapeFlat(d, base, maxVoffset, vtables, fields, current, tables);
      ghost var pad;
      off, pad := PushString(str);
      AlignedMore(current, tables, old(minalign), minalign);
      StringIs(str, [0] + (pad + d));
      Grown(LE(|str|, 4) + (str + ([0] + pad)), d, vec.Data(), vtables, tables);
      GrownDistinct(LE(|str|, 4) + (str + ([0] + pad)), d, vec.Data(), vtables, tables);
      base := vec.Data();
    }

    /** Finish (flatbuffers/flatbuffer_builder.h:1261-1283), without identifier and size:
        the buffer starts with the way to its root. */
    method Finish(root: nat)
      requires Valid() && !nested && 0 < root <= vec.size && vec.size + 16 <= MAX_BUFFER_SIZE
      modifies this`minalign, this`base, this`vtables, this`finished, vec, vec.buf
      ensures Valid() && !nested && finished && (vec.buf == old(vec.buf) || fresh(vec.buf))
      ensures vec.size >= 4 && vec.size - FromLE(vec.Data()[..4]) == root
      ensures Extends(vec.Data(), old(vec.Data())) && NoneTwice()
      ensures forall t :: t in tables ==> ReadsAs(vec.Data(), t, tables[t])
      ensures minalign >= 4 && vec.size % minalign == 0 && AllInPlace(vec.size, tables)
    {
      hide Words, Locs, LE, FromLE, Shape, TablesRead, ReadsAs, PaddingBytes, Zeros, Aligned, Extends, AlignedFields, AlignedTables,
           AllInPlace, IsScalarSize;
      FinalSize(vec.size, minalign);
      ghost var d := vec.Data();
      ShapeFlat(d, base, maxVoffset, vtables, fields, current, tables);
      NothingInScratch();
      vec.ClearScratch();
      vtables := [];
      ghost var pad := Zeros(PaddingBytes(vec.size + 4, minalign));
      PreAlign(4, minalign);
      ghost var more;
      var ref;
      more, ref := PushRoot(root);
      GrownTwice(LE(ref, 4), more, pad, d, vec.Data(), tables);
      AlignedMore(current, tables, old(minalign), minalign);
      TablesInPlace(vec.Data(), minalign, tables);
      base, finished := vec.Data(), true;
    }

    lemma NothingInScratch()
      ensures Words([]) + Locs([]) == []
    {
    }

    /** `PushElement(ReferTo(root))`. */
    method PushRoot(root: nat) returns (ghost pad: seq<byte>, ref: nat)
      requires vec.Valid() && IsScalarSize(minalign) && 0 < root <= vec.size && vec.size + 8 <= MAX_BUFFER_SIZE
      modifies this`minalign, vec, vec.buf
      ensures vec.Valid() && IsScalarSize(minalign) && (vec.buf == old(vec.buf) || fresh(vec.buf)) && vec.size <= MAX_BUFFER_SIZE
      ensures vec.Scratch() == old(vec.Scratch()) && vec.Data() == LE(ref, 4) + (pad + old(vec.Data()))
      ensures FromLE(vec.Data()[..4]) == ref == vec.size - root
      ensures minalign == Larger(old(minalign), 4) && |pad| == PaddingBytes(old(vec.size), 4)
    {
      ScalarFour();
      hide LE, FromLE, PaddingBytes, Zeros, Aligned, IsScalarSize;
      ref, pad := ReferTo(root);
      NoPadding(vec.size, LE(ref, 4), vec.Data());
      RootIs(ref, vec.Data());
      var _ := PushElement(LE(ref, 4));
    }

    /** ReferTo (flatbuffers/flatbuffer_builder.h:371-378, 392-395): how far it is from the
        word pushed next to `off`. */
    method ReferTo(off: nat) returns (ref: nat, ghost pad: seq<byte>)
      requires vec.Valid() && IsScalarSize(minalign) && off <= vec.size
      modifies this`minalign, vec, vec.buf
      ensures vec.Valid() && IsScalarSize(minalign) && (vec.buf == old(vec.buf) || fresh(vec.buf))
      ensures vec.Scratch() == old(vec.Scratch()) && vec.Data() == pad + old(vec.Data()) && |pad| < 4
      ensures Aligned(vec.size, 4) && ref == vec.size + 4 - off
      ensures minalign == Larger(old(minalign), 4) && |pad| == PaddingBytes(old(vec.size), 4)
    {
      pad := Zeros(PaddingBytes(vec.size, 4));
      Align(4);
      ref := vec.size - off + 4;
    }

    /** The finished tables read as what went into them, whether or not another table is
        under construction. */
    lemma TablesHold()
      requires Valid()
      ensures forall t :: t in tables ==> ReadsAs(vec.Data(), t, tables[t])
    {
      hide Shape, Words, Locs, ReadsAs;
      AllRead(vec.Data(), base, nested, maxVoffset, vtables, fields, current, tables);
    }

    /** ClearOffsets (flatbuffers/flatbuffer_builder.h:512-516). */
    method ClearOffsets()
      requires vec.Valid() && vec.Scratch() == Words(vtables) + Locs(fields) && numFieldLoc == |fields|
      modifies this`numFieldLoc, this`maxVoffset, this`fields, vec`scratch
      ensures vec.Valid() && vec.Data() == old(vec.Data()) && vec.Scratch() == Words(vtables)
      ensures fields == [] && numFieldLoc == 0 && maxVoffset == 0
    {
      hide Words, Loc;
      vec.ScratchPop(numFieldLoc * 8);
      numFieldLoc, maxVoffset := 0, 0;
      fields := [];
    }

    /** Drop the new vtable or remember it, and lead the table to the one in use
        (flatbuffers/flatbuffer_builder.h:470-485). */
    method Link(table: nat, vtUse: nat, ghost vt: seq<byte>, ghost rest: seq<byte>)
      requires vec.Valid() && vec.Data() == vt + [0, 0, 0, 0] + rest && vec.Scratch() == Words(vtables)
      requires table == 4 + |rest| && vec.size <= MAX_BUFFER_SIZE && vt != []
      requires vtUse == vec.size || vtUse < table
      modifies this`vtables, vec, vec.buf
      ensures vec.Valid() && (vec.buf == old(vec.buf) || fresh(vec.buf)) && vec.Scratch() == Words(vtables)
      ensures vec.Data() == (if vtUse < table then [] else vt) + LE(Unsigned(vtUse - table), 4) + rest
      ensures vtables == if vtUse < table then old(vtables) else old(vtables) + [vtUse]
    {
      hide Words, LE;
      ghost var front := if vtUse < table then [] else vt;
      if vtUse != vec.size {
        vec.Pop(vec.size - table);
        assert vec.Data() == [0, 0, 0, 0] + rest;
      }
      if vtUse == vec.size { Remember(vtUse); }
      PatchedLink(front, LE(Unsigned(vtUse - table), 4), rest);
      vec.Write(vec.size - table, LE(Unsigned(vtUse - table), 4));
    }

    lemma PatchedLink(front: seq<byte>, soff: seq<byte>, rest: seq<byte>)
      requires |soff| == 4
      ensures var d := front + [0, 0, 0, 0] + rest; d[..|front|] + soff + d[|front| + 4..] == front + soff + rest
    {
    }

    /** A new vtable joins those that can be shared. */
    method Remember(v: nat)
      requires vec.Valid() && vec.Scratch() == Words(vtables)
      modifies this`vtables, vec, vec.buf
      ensures vec.Valid() && (vec.buf == old(vec.buf) || fresh(vec.buf)) && vec.Data() == old(vec.Data())
      ensures vec.Scratch() == Words(vtables) && vtables == old(vtables) + [v]
    {
      hide Words, LE;
      WordsSnoc(vtables, v);
      vec.ScratchPush(LE(v, 4));
      vtables := vtables + [v];
    }
  }

  lemma LocsSnoc(fs: seq<FieldLoc>, f: FieldLoc)
    ensures Locs(fs + [f]) == Locs(fs) + Loc(f)
  {
    assert (fs + [f])[..|fs|] == fs;
  }

  lemma WordsSnoc(vs: seq<nat>, v: nat)
    ensures Words(vs + [v]) == Words(vs) + LE(v, 4)
  {
    assert (vs + [v])[..|vs|] == vs;
  }

  lemma FieldBounds(d: seq<byte>, base: seq<byte>, maxVoffset: nat, vtables: seq<nat>, fs: seq<FieldLoc>,
                    current: map<nat, Stored>, tables: map<nat, map<nat, Stored>>)
    requires Shape(d, base, true, maxVoffset, vtables, fs, current, tables)
    ensures DistinctIds(fs) && maxVoffset % 2 == 0 && maxVoffset < 0xFFFE && |base| <= |d|
    ensures forall i :: 0 <= i < |fs| ==> VTABLE_HEADER <= fs[i].id <= maxVoffset && fs[i].id % 2 == 0 && |base| < fs[i].off <= |d|
  {
  }

  lemma ShapeBase(d: seq<byte>, base: seq<byte>, maxVoffset: nat, vtables: seq<nat>, fs: seq<FieldLoc>,
                  current: map<nat, Stored>, tables: map<nat, map<nat, Stored>>)
    requires Shape(d, base, true, maxVoffset, vtables, fs, current, tables)
    ensures |base| <= |d| && d[|d| - |base|..] == base && TablesRead(base, vtables, tables)
  {
  }

  /** A string and its length. */
  predicate StringAt(d: seq<byte>, off: nat, str: seq<byte>) {
    && 4 + |str| < off <= |d| && FromLE(FromEnd(d, off, 4)) == |str|
    && FromEnd(d, off - 4, |str|) == str && d[|d| - off + 4 + |str|] == 0
  }

  lemma StringIs(str: seq<byte>, rest: seq<byte>)
    requires |str| < 0x1_0000_0000 && |rest| > 0 && rest[0] == 0
    ensures var d := LE(|str|, 4) + (str + rest); StringAt(d, |d|, str)
  {
    hide LE, FromLE;
    Widths();
    FromLEInvertsLE(|str|, 4);
    var d := LE(|str|, 4) + (str + rest);
    assert FromEnd(d, |d|, 4) == LE(|str|, 4);
    assert FromEnd(d, |d| - 4, |str|) == str;
  }

  /** A string stays where it is. */
  lemma StringAtBelow(x: seq<byte>, d: seq<byte>, off: nat, str: seq<byte>)
    requires StringAt(d, off, str)
    ensures StringAt(x + d, off, str)
  {
    hide FromLE;
    FromEndBelow(x, d, off, 4);
    FromEndBelow(x, d, off - 4, |str|);
  }

  /** An aligned buffer takes a word without padding. */
  lemma NoPadding(n: nat, e: seq<byte>, d: seq<byte>)
    requires Aligned(n, 4) && |e| == 4 && n == |d|
    ensures Pushed(e, d) == e + d
  {
    assert Zeros(0) == [];
  }

  lemma RootIs(ref: nat, rest: seq<byte>)
    requires ref < 0x1_0000_0000
    ensures FromLE((LE(ref, 4) + rest)[..4]) == ref
  {
    hide LE, FromLE;
    Widths();
    FromLEInvertsLE(ref, 4);
    assert (LE(ref, 4) + rest)[..4] == LE(ref, 4);
  }

  lemma ScalarFour()
    ensures IsScalarSize(4)
  {
  }

  lemma OneZero()
    ensures Zeros(1) == [0]
  {
  }

  /** Between tables the buffer is its own base. */
  lemma ShapeFlat(d: seq<byte>, base: seq<byte>, maxVoffset: nat, vtables: seq<nat>, fields: seq<FieldLoc>,
                  current: map<nat, Stored>, tables: map<nat, map<nat, Stored>>)
    requires Shape(d, base, false, maxVoffset, vtables, fields, current, tables)
    ensures Shape(d, d, false, 0, vtables, [], map[], tables) && Shape(d, d, false, 0, [], [], map[], tables)
    ensures base == d && maxVoffset == 0 && fields == [] && current == map[]
  {
    hide Placed, ReadsAs, KnownVTable;
  }

  /** The finished tables of a buffer, whether or not another is under construction. */
  lemma AllRead(d: seq<byte>, base: seq<byte>, nested: bool, maxVoffset: nat, vtables: seq<nat>, fields: seq<FieldLoc>,
                current: map<nat, Stored>, tables: map<nat, map<nat, Stored>>)
    requires Shape(d, base, nested, maxVoffset, vtables, fields, current, tables)
    ensures forall t :: t in tables ==> ReadsAs(d, t, tables[t])
  {
    hide Placed, ReadsAs, KnownVTable;
    var x := d[..|d| - |base|];
    assert d == x + base;
    forall t | t in tables ensures ReadsAs(d, t, tables[t]) { ReadsAsBelow(x, base, t, tables[t]); }
  }

  lemma GrownTwice(w: seq<byte>, more: seq<byte>, pad: seq<byte>, d: seq<byte>, d': seq<byte>, tables: map<nat, map<nat, Stored>>)
    requires Shape(d, d, false, 0, [], [], map[], tables) && d' == w + (more + (pad + d))
    ensures Shape(d', d', false, 0, [], [], map[], tables) && Extends(d', d)
    ensures forall t :: t in tables ==> ReadsAs(d', t, tables[t])
  {
    hide Shape, ReadsAs;
    assert d' == w + (more + pad) + d;
    Grown(w + (more + pad), d, d', [], tables);
  }

  lemma Grown(x: seq<byte>, d: seq<byte>, d': seq<byte>, vtables: seq<nat>, tables: map<nat, map<nat, Stored>>)
    requires Shape(d, d, false, 0, vtables, [], map[], tables) && d' == x + d
    ensures Shape(d', d', false, 0, vtables, [], map[], tables) && Extends(d', d)
    ensures forall t :: t in tables ==> ReadsAs(d', t, tables[t])
  {
    hide Shape, ReadsAs;
    ShapePush(x, d, vtables, tables);
    TablesAll(d', vtables, tables);
  }

  lemma GrownDistinct(x: seq<byte>, d: seq<byte>, d': seq<byte>, vtables: seq<nat>, tables: map<nat, map<nat, Stored>>)
    requires Shape(d, d, false, 0, vtables, [], map[], tables) && d' == x + d
    ensures Distinct(d, vtables) ==> Distinct(d', vtables)
  {
    hide Distinct, TablesRead;
    DistinctBelow(x, d, vtables, tables);
  }

  lemma BaseBelow(x: seq<byte>, d: seq<byte>, base: seq<byte>)
    requires |base| <= |d| && d[|d| - |base|..] == base
    ensures (x + d)[|x + d| - |base|..] == base
  {
  }

  /** A finished table's bytes: the link to its vtable, after the vtable if it is new. */
  predicate Linked(base: seq<byte>, d: seq<byte>, table: nat, vt: seq<byte>, rest: seq<byte>, v: nat) {
    && table == 4 + |rest| && |vt| + table <= MAX_BUFFER_SIZE && |base| < table
    && (v == |vt| + table || (v <= |base| && |vt| <= v && FromEnd(base, v, |vt|) == vt))
    && d == (if v < table then [] else vt) + LE(Unsigned(v - table), 4) + rest
  }

  /** All that is known once a table is linked to its vtable. */
  lemma FinishTable(d0: seq<byte>, base: seq<byte>, maxV: nat, vs: seq<nat>, fs: seq<FieldLoc>, current: map<nat, Stored>,
                    tables: map<nat, map<nat, Stored>>, table: nat, vt: seq<byte>, pad: seq<byte>, v: nat, d: seq<byte>)
    requires Shape(d0, base, true, maxV, vs, fs, current, tables)
    requires IsVTable(vt, fs, table) && maxV < |vt| && Linked(base, d, table, vt, pad + d0, v)
    ensures Shape(d, d, false, 0, if v < table then vs else vs + [v], [], map[], tables[table := current])
    ensures table !in tables && ReadsAs(d, table, current) && forall t :: t in tables ==> ReadsAs(d, t, tables[t])
    ensures 0 < table <= |d| && Extends(d, d0)
  {
    hide IsVTable, Shape, TablesRead, ReadsAs, LE, PosOf, Entered;
    ShapeBase(d0, base, maxV, vs, fs, current, tables);
    VTableSize(vt, fs, table);
    var front := if v < table then [] else vt;
    ShapeEnd(d0, base, maxV, vs, fs, current, tables, vt, pad, front, v);
    assert d == front + LE(Unsigned(v - table), 4) + pad + d0;
    ExtendsBy(front + LE(Unsigned(v - table), 4) + pad, d0);
    TableIsNew(base, vs, tables, table);
    TablesAll(d, if v < table then vs else vs + [v], tables[table := current]);
    assert tables[table := current][table] == current;
    forall t | t in tables ensures ReadsAs(d, t, tables[t]) { assert tables[table := current][t] == tables[t]; }
  }

  lemma EndDistinct(d0: seq<byte>, base: seq<byte>, maxV: nat, vs: seq<nat>, fs: seq<FieldLoc>, current: map<nat, Stored>,
                    tables: map<nat, map<nat, Stored>>, table: nat, vt: seq<byte>, pad: seq<byte>, v: nat, d: seq<byte>)
    requires Shape(d0, base, true, maxV, vs, fs, current, tables)
    requires IsVTable(vt, fs, table) && Linked(base, d, table, vt, pad + d0, v)
    requires Distinct(base, vs) && (v < table || Unknown(base, vs, vt))
    ensures Distinct(d, if v < table then vs else vs + [v])
  {
    hide IsVTable, Shape, TablesRead, Linked, Distinct, Unknown, U16;
    ShapeBase(d0, base, maxV, vs, fs, current, tables);
    VTableSize(vt, fs, table);
    BaseBelow(pad, d0, base);
    LinkDistinct(base, d, table, vt, pad + d0, v, vs, tables);
  }

  /** A vtable that was not there is remembered; otherwise none is. */
  lemma LinkDistinct(base: seq<byte>, d: seq<byte>, table: nat, vt: seq<byte>, rest: seq<byte>, v: nat, vs: seq<nat>,
                     tables: map<nat, map<nat, Stored>>)
    requires Linked(base, d, table, vt, rest, v) && TablesRead(base, vs, tables)
    requires |base| <= |rest| && rest[|rest| - |base|..] == base && VTABLE_HEADER <= |vt| && U16(vt, 0) == |vt|
    requires Distinct(base, vs) && (v < table || Unknown(base, vs, vt))
    ensures Distinct(d, if v < table then vs else vs + [v])
  {
    hide TablesRead, LE, FromLE, VTableOf;
    var front := (if v < table then [] else vt) + LE(Unsigned(v - table), 4) + rest[..|rest| - |base|];
    assert d == front + base;
    DistinctBelow(front, base, vs, tables);
    if v >= table { NewVTable(vt, LE(Unsigned(v - table), 4) + rest, v, d); }
  }

  lemma NewVTable(vt: seq<byte>, behind: seq<byte>, v: nat, d: seq<byte>)
    requires d == vt + behind && v == |d| && VTABLE_HEADER <= |vt| && U16(vt, 0) == |vt|
    ensures VTableOf(d, v) == vt
  {
    hide FromLE;
    assert FromEnd(d, v, 2) == vt[0..2];
    assert FromEnd(d, v, |vt|) == vt;
  }

  lemma VTableSize(vt: seq<byte>, fs: seq<FieldLoc>, table: nat)
    requires IsVTable(vt, fs, table)
    ensures VTABLE_HEADER <= |vt| && U16(vt, 0) == |vt|
  {
  }

  lemma TableIsNew(base: seq<byte>, vtables: seq<nat>, tables: map<nat, map<nat, Stored>>, table: nat)
    requires TablesRead(base, vtables, tables) && |base| < table
    ensures table !in tables
  {
    forall t | t in tables ensures t <= |base| { assert ReadsAs(base, t, tables[t]); }
  }

  lemma TablesAll(d: seq<byte>, vtables: seq<nat>, tables: map<nat, map<nat, Stored>>)
    requires Shape(d, d, false, 0, vtables, [], map[], tables)
    ensures forall t :: t in tables ==> ReadsAs(d, t, tables[t])
  {
  }

  lemma BlankVTable(size: nat, table: nat)
    requires VTABLE_HEADER <= size && size % 2 == 0
    ensures Entered(Zeros(size), [], table)
  {
    forall f | VTABLE_HEADER <= f && f + 2 <= size && f % 2 == 0 ensures U16(Zeros(size), f) == 0 {
      FromLEZeros(2);
      assert Zeros(size)[f..f + 2] == seq(2, _ => 0);
    }
  }

  /** The two numbers at the start of a vtable are no field's entry. */
  lemma HeaderKeeps(vt: seq<byte>, size: nat, objectSize: nat, table: nat)
    requires VTABLE_HEADER <= size < 0x1_0000 && size % 2 == 0 && objectSize < 0x1_0000
    requires vt == Patch(Patch(Zeros(size), 2, LE(objectSize, 2)), 0, LE(size, 2))
    ensures U16(vt, 0) == size && Entered(vt, [], table)
  {
    hide LE, FromLE, Zeros, Patch, U16;
    BlankVTable(size, table);
    var vt1 := Patch(Zeros(size), 2, LE(objectSize, 2));
    U16Patch(vt1, 0, size, 0);
    forall f | VTABLE_HEADER <= f && f + 2 <= size && f % 2 == 0 ensures U16(vt, f) == PosOf([], f, table) {
      U16Patch(Zeros(size), 2, objectSize, f);
      U16Patch(vt1, 0, size, f);
    }
  }

  lemma BehindPrefix(a: seq<byte>, b: seq<byte>, i: nat, n: nat)
    requires i + n <= |b|
    ensures (a + b)[|a| + i..|a| + i + n] == b[i..i + n]
  {
  }

  lemma SlicesOfEight(s: seq<byte>, at: nat, loc: seq<byte>)
    requires at + 8 <= |s| && loc == s[at..at + 8]
    ensures s[at..at + 4] == loc[..4] && s[at + 4..at + 6] == loc[4..6]
  {
    assert loc[4] == s[at + 4] && loc[5] == s[at + 5];
    assert s[at + 4..at + 6] == [s[at + 4], s[at + 5]];
    assert loc[4..6] == [loc[4], loc[5]];
  }

  lemma LocReads(f: FieldLoc)
    requires f.off < 0x1_0000_0000 && f.id < 0x1_0000
    ensures FromLE(Loc(f)[..4]) == f.off && FromLE(Loc(f)[4..6]) == f.id
  {
    hide LE, FromLE, Pow256;
    Widths();
    FromLEInvertsLE(f.off, 4);
    FromLEInvertsLE(f.id, 2);
    assert Loc(f)[..4] == LE(f.off, 4) && Loc(f)[4..6] == LE(f.id, 2);
  }

  lemma ReadLoc(scratch: seq<byte>, vs: seq<nat>, fs: seq<FieldLoc>, i: nat)
    requires scratch == Words(vs) + Locs(fs) && i < |fs| && fs[i].off < 0x1_0000_0000 && fs[i].id < 0x1_0000
    ensures var at := |scratch| - (|fs| - i) * 8;
            FromLE(scratch[at..at + 4]) == fs[i].off && FromLE(scratch[at + 4..at + 6]) == fs[i].id
  {
    hide *;
    LocSlice(scratch, vs, fs, i);
    SlicesOfEight(scratch, |scratch| - (|fs| - i) * 8, Loc(fs[i]));
    LocReads(fs[i]);
  }

  lemma LocSlice(scratch: seq<byte>, vs: seq<nat>, fs: seq<FieldLoc>, i: nat)
    requires scratch == Words(vs) + Locs(fs) && i < |fs|
    ensures var at := |scratch| - (|fs| - i) * 8; scratch[at..at + 8] == Loc(fs[i])
  {
    hide Words, Locs, Loc;
    LocAt(fs, i);
    BehindPrefix(Words(vs), Locs(fs), 8 * i, 8);
  }

  lemma NotTwice(vt: seq<byte>, fs: seq<FieldLoc>, i: nat, table: nat)
    requires i < |fs| && DistinctIds(fs) && Entered(vt, fs[..i], table)
    requires VTABLE_HEADER <= fs[i].id && fs[i].id + 2 <= |vt| && fs[i].id % 2 == 0
    ensures U16(vt, fs[i].id) == 0
  {
    PosOfAbsent(fs[..i], fs[i].id, table);
  }

  lemma KnownBelow(x: seq<byte>, d: seq<byte>, v: nat)
    requires KnownVTable(d, v)
    ensures KnownVTable(x + d, v)
  {
    VTableBelow(x, d, v);
  }
}
