/** What a program of builder calls means, and that the finished buffer reads back as that:
    flatbuffers/flatbuffer_builder.h against flatbuffers/table.h, over whole call sequences. */
module FlatDocument {
  import opened Bytes
  import opened FlatBuilder
  import opened FlatFormat
  import opened Options

  // ---------------------------------------------------------------- the meaning of calls

  /** The calls that generated code makes. Objects are named by the order of their making,
      as the program names them by the offsets that it was given. */
  datatype Op =
    | Start
    | Add(field: nat, e: seq<byte>, def: seq<byte>)
    | Refer(field: nat, obj: Option<nat>)
    | Str(bytes: seq<byte>)
    | End

  datatype Value = Scalar(bytes: seq<byte>) | Ref(obj: nat)

  datatype Obj = Text(bytes: seq<byte>) | Table(fields: map<nat, Value>)

  /** The objects made so far, and the fields of the table under construction. */
  datatype Doc = Doc(objs: seq<Obj>, open: Option<map<nat, Value>>)

  function Set(doc: Doc, field: nat, v: Value): (r: Doc)
    ensures r.objs == doc.objs && r.open.Some? == doc.open.Some?
  {
    if doc.open.Some? then doc.(open := Some(doc.open.value[field := v])) else doc
  }

  function Do(doc: Doc, op: Op, force: bool): (r: Doc)
    ensures doc.objs <= r.objs
  {
    match op
    case Start => doc.(open := Some(map[]))
    case Add(field, e, def) => if e == def && !force then doc else Set(doc, field, Scalar(e))
    case Refer(field, obj) => if obj.None? then doc else Set(doc, field, Ref(obj.value))
    case Str(bytes) => doc.(objs := doc.objs + [Text(bytes)])
    case End => if doc.open.Some? then Doc(doc.objs + [Table(doc.open.value)], None) else doc
  }

  /** What a call sequence makes, `force` being ForceDefaults. */
  function After(ops: seq<Op>, force: bool): (doc: Doc) {
    if ops == [] then Doc([], None) else Do(After(ops[..|ops| - 1], force), ops[|ops| - 1], force)
  }

  lemma {:induction false} AfterPrefix(ops: seq<Op>, n: nat, m: nat, force: bool)
    requires n <= m <= |ops|
    ensures After(ops[..n], force).objs <= After(ops[..m], force).objs
    decreases m
  {
    hide Do;
    if n < m {
      AfterPrefix(ops, n, m - 1, force);
      assert ops[..m][..m - 1] == ops[..m - 1];
    }
  }

  // ---------------------------------------------------------------- programs that are never stopped

  /** The calls' own rules, whatever the builder: tables do not nest, strings come between
      tables, a field is stored once, and what is referred to was made before. */
  predicate Legal(doc: Doc, op: Op, force: bool) {
    match op
    case Start => doc.open.None?
    case Add(field, e, def) =>
      && doc.open.Some? && 4 <= field < 0xFFFE && field % 2 == 0 && |e| == |def| && |e| in {1, 2, 4, 8}
      && (e != def || force ==> field !in doc.open.value)
    case Refer(field, obj) =>
      && doc.open.Some? && 4 <= field < 0xFFFE && field % 2 == 0
      && (obj.Some? ==> obj.value < |doc.objs| && field !in doc.open.value)
    case Str(_) => doc.open.None?
    case End => doc.open.Some?
  }

  /** No call makes the buffer longer than this: the value with its padding, or the table's
      link and the longest vtable. */
  function Cost(op: Op): (n: nat) {
    match op
    case Start => 0
    case Add(_, e, _) => |e| + 7
    case Refer(_, _) => 7
    case Str(bytes) => |bytes| + 8
    case End => 7 + 65535
  }

  function Total(ops: seq<Op>): (n: nat) {
    if ops == [] then 0 else Total(ops[..|ops| - 1]) + Cost(ops[|ops| - 1])
  }

  /** The same for the table under construction. */
  function Open(ops: seq<Op>): (n: nat) {
    if ops == [] || ops[|ops| - 1].Start? then 0 else Open(ops[..|ops| - 1]) + Cost(ops[|ops| - 1])
  }

  /** Every call is legal where it stands, every table stays below 64 KB and the whole below
      the limit of 2 GB. */
  ghost predicate KeepsRules(ops: seq<Op>, force: bool) {
    Total(ops) <= 0x7FFF_FFFF && Lawful(ops, force)
  }

  ghost predicate Lawful(ops: seq<Op>, force: bool) {
    forall i :: 0 <= i < |ops| ==> Legal(After(ops[..i], force), ops[i], force) && (ops[i].End? ==> Open(ops[..i]) + 7 < 0x1_0000)
  }

  lemma {:induction false} TotalGrows(ops: seq<Op>, n: nat)
    requires n <= |ops|
    ensures Total(ops[..n]) <= Total(ops)
    decreases |ops|
  {
    if n < |ops| {
      assert ops[..|ops| - 1][..n] == ops[..n];
      TotalGrows(ops[..|ops| - 1], n);
    } else {
      assert ops[..n] == ops;
    }
  }

  // ---------------------------------------------------------------- reading back

  /** What the reader of a table must see in field `f`. */
  ghost predicate FieldReads(d: seq<byte>, t: Offset, f: nat, fields: map<nat, Value>, made: seq<Offset>)
    requires Readable(d, t) && f % 2 == 0
  {
    var e := GetOptionalFieldOffset(d, t, f);
    if f !in fields then e == 0
    else
      e != 0
      && match fields[f]
         case Scalar(bytes) => e + |bytes| <= t && GetField(d, t, f, bytes) == bytes
         case Ref(obj) => e + 4 <= t && obj < |made| && GetPointer(d, t, f) == Some(made[obj])
  }

  ghost predicate ObjReads(d: seq<byte>, at: Offset, obj: Obj, made: seq<Offset>) {
    match obj
    case Text(bytes) => StringAt(d, at, bytes)
    case Table(fields) =>
      && Readable(d, at)
      && forall f {:trigger GetOptionalFieldOffset(d, at, f)} :: f >= VTABLE_HEADER && f % 2 == 0 ==>
           FieldReads(d, at, f, fields, made)
  }

  function Width(v: Value): (n: nat) {
    match v
    case Scalar(bytes) => |bytes|
    case Ref(_) => 4
  }

  /** Counted from the front of the buffer, the object lies at a multiple of four, and each
      field of a table at a multiple of its width. */
  ghost predicate ObjAligned(d: seq<byte>, at: Offset, obj: Obj) {
    && at <= |d| && (|d| - at) % 4 == 0
    && (obj.Table? ==>
          && Readable(d, at)
          && forall f :: f in obj.fields ==> FieldId(f) && FieldAligned(d, at, f, Width(obj.fields[f])))
  }

  ghost predicate FieldAligned(d: seq<byte>, t: Offset, f: nat, width: nat)
    requires Readable(d, t) && f % 2 == 0
  {
    var e := GetOptionalFieldOffset(d, t, f);
    width > 0 && e <= t && (|d| - (t - e)) % width == 0
  }

  ghost predicate AllObjAligned(d: seq<byte>, made: seq<Offset>, objs: seq<Obj>) {
    |made| == |objs| && forall k :: 0 <= k < |objs| ==> ObjAligned(d, made[k], objs[k])
  }

  /** Every object is where the builder said it was, and reads as what was put into it. */
  ghost predicate ReadsBack(d: seq<byte>, made: seq<Offset>, objs: seq<Obj>) {
    |made| == |objs| && forall k :: 0 <= k < |objs| ==> ObjReads(d, made[k], objs[k], made)
  }

  /** A field as wide as `width` lies within the buffer, or is missing. */
  predicate Fits(d: seq<byte>, t: Offset, f: nat, width: nat)
    requires Readable(d, t) && f % 2 == 0
  {
    var e := GetOptionalFieldOffset(d, t, f);
    e == 0 || e + width <= t
  }

  /** Field `f` may be asked for with the default `def`. */
  predicate Asks(fields: map<nat, Value>, f: nat, def: seq<byte>) {
    f >= VTABLE_HEADER && f % 2 == 0 && (f in fields && fields[f].Scalar? ==> |def| == |fields[f].bytes|)
  }

  /** A field of object `k` answers alike in two buffers: a scalar with the same bytes, a
      reference with the same object, what is missing with the reader's default. */
  ghost predicate AlikeField(d1: seq<byte>, made1: seq<Offset>, d2: seq<byte>, made2: seq<Offset>, k: nat,
                             fields: map<nat, Value>, f: nat, def: seq<byte>)
    requires k < |made1| && k < |made2| && Readable(d1, made1[k]) && Readable(d2, made2[k]) && Asks(fields, f, def)
  {
    && (GetOptionalFieldOffset(d1, made1[k], f) == 0 <==> GetOptionalFieldOffset(d2, made2[k], f) == 0)
    && if f in fields && fields[f].Ref? then
         && Fits(d1, made1[k], f, 4) && Fits(d2, made2[k], f, 4) && fields[f].obj < |made1| && fields[f].obj < |made2|
         && GetPointer(d1, made1[k], f) == Some(made1[fields[f].obj])
         && GetPointer(d2, made2[k], f) == Some(made2[fields[f].obj])
       else
         && Fits(d1, made1[k], f, |def|) && Fits(d2, made2[k], f, |def|)
         && GetField(d1, made1[k], f, def) == GetField(d2, made2[k], f, def)
  }

  ghost predicate Alike(d1: seq<byte>, made1: seq<Offset>, d2: seq<byte>, made2: seq<Offset>, k: nat, obj: Obj)
    requires k < |made1| && k < |made2|
  {
    match obj
    case Text(bytes) => StringAt(d1, made1[k], bytes) && StringAt(d2, made2[k], bytes)
    case Table(fields) =>
      && Readable(d1, made1[k]) && Readable(d2, made2[k])
      && forall f, def {:trigger Asks(fields, f, def)} :: Asks(fields, f, def) ==>
           AlikeField(d1, made1, d2, made2, k, fields, f, def)
  }

  lemma AnswerAlike(d1: seq<byte>, made1: seq<Offset>, d2: seq<byte>, made2: seq<Offset>, k: nat,
                    fields: map<nat, Value>, f: nat, def: seq<byte>)
    requires k < |made1| && k < |made2| && Asks(fields, f, def)
    requires ObjReads(d1, made1[k], Table(fields), made1) && ObjReads(d2, made2[k], Table(fields), made2)
    ensures AlikeField(d1, made1, d2, made2, k, fields, f, def)
  {
    hide Readable;
    assert FieldReads(d1, made1[k], f, fields, made1) && FieldReads(d2, made2[k], f, fields, made2);
  }

  // ---------------------------------------------------------------- what a builder keeps

  /** A builder's record of a table against the fields that were put into it. */
  ghost predicate Matches(stored: map<nat, Stored>, fields: map<nat, Value>, made: seq<Offset>) {
    && stored.Keys == fields.Keys
    && forall f :: f in fields ==> ValueMatches(stored[f], fields[f], made)
  }

  ghost predicate ValueMatches(s: Stored, v: Value, made: seq<Offset>) {
    match v
    case Scalar(bytes) => s.value == bytes
    case Ref(obj) => obj < |made| && |s.value| == 4 && s.at - FromLE(s.value) == made[obj]
  }

  ghost predicate ObjKept(d: seq<byte>, tables: map<nat, map<nat, Stored>>, obj: Obj, at: Offset, made: seq<Offset>) {
    && 0 < at <= |d| && at % 4 == 0
    && match obj
       case Text(bytes) => StringAt(d, at, bytes)
       case Table(fields) => at in tables && Matches(tables[at], fields, made)
  }

  ghost predicate Kept(d: seq<byte>, tables: map<nat, map<nat, Stored>>, objs: seq<Obj>, made: seq<Offset>) {
    |made| == |objs| && forall k :: 0 <= k < |objs| ==> ObjKept(d, tables, objs[k], made[k], made)
  }

  lemma MatchesSet(stored: map<nat, Stored>, fields: map<nat, Value>, made: seq<Offset>, f: nat, s: Stored, v: Value)
    requires Matches(stored, fields, made) && ValueMatches(s, v, made)
    ensures Matches(stored[f := s], fields[f := v], made)
  {
    hide ValueMatches;
    assert stored[f := s].Keys == stored.Keys + {f} == fields[f := v].Keys;
  }

  lemma MatchesLonger(stored: map<nat, Stored>, fields: map<nat, Value>, made: seq<Offset>, at: Offset)
    requires Matches(stored, fields, made)
    ensures Matches(stored, fields, made + [at])
  {
    forall f | f in fields ensures ValueMatches(stored[f], fields[f], made + [at]) {
      assert ValueMatches(stored[f], fields[f], made);
    }
  }

  /** More bytes at the front and more tables disturb nothing. */
  lemma KeptGrows(d0: seq<byte>, d: seq<byte>, tables0: map<nat, map<nat, Stored>>, tables: map<nat, map<nat, Stored>>,
                  objs: seq<Obj>, made: seq<Offset>)
    requires Kept(d0, tables0, objs, made) && Extends(d, d0)
    requires forall t :: t in tables0 ==> t in tables && tables[t] == tables0[t]
    ensures Kept(d, tables, objs, made)
  {
    hide Matches, StringAt;
    var x := d[..|d| - |d0|];
    assert d == x + d0;
    forall k | 0 <= k < |objs| ensures ObjKept(d, tables, objs[k], made[k], made) {
      assert ObjKept(d0, tables0, objs[k], made[k], made);
      if objs[k].Text? { StringAtBelow(x, d0, made[k], objs[k].bytes); }
    }
  }

  lemma KeptSnoc(d: seq<byte>, tables: map<nat, map<nat, Stored>>, objs: seq<Obj>, made: seq<Offset>, obj: Obj, at: Offset)
    requires Kept(d, tables, objs, made) && ObjKept(d, tables, obj, at, made)
    ensures Kept(d, tables, objs + [obj], made + [at])
  {
    hide StringAt, Matches;
    var objs', made' := objs + [obj], made + [at];
    forall k | 0 <= k < |objs'| ensures ObjKept(d, tables, objs'[k], made'[k], made') {
      assert ObjKept(d, tables, objs'[k], made'[k], made);
      if objs'[k].Table? { MatchesLonger(tables[made'[k]], objs'[k].fields, made, at); }
    }
  }

  /** What is kept reads back. */
  lemma KeptReads(d: seq<byte>, tables: map<nat, map<nat, Stored>>, objs: seq<Obj>, made: seq<Offset>)
    requires Kept(d, tables, objs, made) && forall t :: t in tables ==> ReadsAs(d, t, tables[t])
    ensures ReadsBack(d, made, objs)
  {
    hide Matches, ReadsAs, StringAt, Readable;
    forall k | 0 <= k < |objs| ensures ObjReads(d, made[k], objs[k], made) {
      assert ObjKept(d, tables, objs[k], made[k], made);
      if objs[k].Table? { TableKeptReads(d, made[k], tables[made[k]], objs[k].fields, made); }
    }
  }

  lemma TableKeptReads(d: seq<byte>, t: Offset, stored: map<nat, Stored>, fields: map<nat, Value>, made: seq<Offset>)
    requires ReadsAs(d, t, stored) && Matches(stored, fields, made)
    ensures ObjReads(d, t, Table(fields), made)
  {
    hide GetOptionalFieldOffset, FromEnd, FromLE;
    forall f | f >= VTABLE_HEADER && f % 2 == 0 ensures FieldReads(d, t, f, fields, made) {
      assert HoldsField(d, t, stored, f);
      if f in fields {
        assert ValueMatches(stored[f], fields[f], made);
      }
    }
  }

  // ---------------------------------------------------------------- running the calls

  /** A builder's record is that of `doc`. */
  ghost predicate Records(d: seq<byte>, nested: bool, current: map<nat, Stored>, tables: map<nat, map<nat, Stored>>,
                          doc: Doc, made: seq<Offset>)
  {
    && Kept(d, tables, doc.objs, made)
    && nested == doc.open.Some?
    && (nested ==> Matches(current, doc.open.value, made))
  }

  ghost predicate Represents(b: FlatBufferBuilder, doc: Doc, made: seq<Offset>)
    requires b.Valid()
    reads b, b.vec, b.vec.buf
  {
    Records(b.vec.Data(), b.nested, b.current, b.tables, doc, made)
  }

  lemma RecordsSet(d0: seq<byte>, d: seq<byte>, current: map<nat, Stored>, tables: map<nat, map<nat, Stored>>,
                   doc: Doc, made: seq<Offset>, f: nat, stored: Stored, v: Value)
    requires Records(d0, true, current, tables, doc, made) && Extends(d, d0) && ValueMatches(stored, v, made)
    ensures Records(d, true, current[f := stored], tables, Set(doc, f, v), made)
  {
    hide Kept, Matches, ValueMatches, Extends;
    KeptGrows(d0, d, tables, tables, doc.objs, made);
    MatchesSet(current, doc.open.value, made, f, stored, v);
  }

  lemma RecordsStart(d: seq<byte>, current: map<nat, Stored>, tables: map<nat, map<nat, Stored>>, doc: Doc, made: seq<Offset>)
    requires Records(d, false, current, tables, doc, made)
    ensures Records(d, true, map[], tables, doc.(open := Some(map[])), made)
  {
    hide Kept;
  }

  lemma RecordsStr(d0: seq<byte>, d: seq<byte>, current: map<nat, Stored>, tables: map<nat, map<nat, Stored>>,
                   doc: Doc, made: seq<Offset>, at: Offset, bytes: seq<byte>)
    requires Records(d0, false, current, tables, doc, made) && Extends(d, d0) && 0 < at <= |d| && at % 4 == 0 && StringAt(d, at, bytes)
    ensures Records(d, false, current, tables, doc.(objs := doc.objs + [Text(bytes)]), made + [at])
  {
    hide Kept, StringAt, Extends, Matches;
    KeptGrows(d0, d, tables, tables, doc.objs, made);
    KeptSnoc(d, tables, doc.objs, made, Text(bytes), at);
  }

  lemma RecordsEnd(d0: seq<byte>, d: seq<byte>, current: map<nat, Stored>, tables: map<nat, map<nat, Stored>>,
                   doc: Doc, made: seq<Offset>, at: Offset)
    requires Records(d0, true, current, tables, doc, made) && Extends(d, d0) && 0 < at <= |d| && at % 4 == 0 && at !in tables
    ensures Records(d, false, map[], tables[at := current], Doc(doc.objs + [Table(doc.open.value)], None), made + [at])
  {
    hide Kept, Extends, Matches;
    KeptGrows(d0, d, tables, tables[at := current], doc.objs, made);
    KeptSnoc(d, tables[at := current], doc.objs, made, Table(doc.open.value), at);
  }

  lemma RefInside(d: seq<byte>, nested: bool, current: map<nat, Stored>, tables: map<nat, map<nat, Stored>>,
                  doc: Doc, made: seq<Offset>, k: nat)
    requires Records(d, nested, current, tables, doc, made) && k < |made|
    ensures 0 < made[k] <= |d|
  {
    assert ObjKept(d, tables, doc.objs[k], made[k], made);
  }

  /** Whether a field may be stored in a table: it is not there yet. */
  predicate MayStore(b: FlatBufferBuilder, field: nat, used: set<nat>, scalarSize: nat)
    requires IsScalarSize(scalarSize)
    reads b, b.vec
  {
    field !in used && SizeAfter(b.vec.size, scalarSize) <= MAX_BUFFER_SIZE
  }

  /** Whether the builder's own assertions let a call through, for a table started at
      `start` in which the fields `used` are stored. */
  predicate MayCall(b: FlatBufferBuilder, op: Op, start: nat, used: set<nat>, made: nat)
    reads b, b.vec
  {
    match op
    case Start => !b.nested
    case Add(field, e, def) =>
      && b.nested && FieldId(field) && |e| == |def| && IsScalarSize(|e|)
      && (e != def || b.forceDefaults ==> MayStore(b, field, used, |e|))
    case Refer(field, obj) => b.nested && FieldId(field) && (obj.Some? ==> obj.value < made && MayStore(b, field, used, 4))
    case Str(bytes) => !b.nested && SizeAfter(b.vec.size + |bytes| + 1, 4) <= MAX_BUFFER_SIZE
    case End =>
      && b.nested && SizeAfter(b.vec.size, 4) - start < 0x1_0000
      && SizeAfter(b.vec.size, 4) + VTableBytes(b.maxVoffset) <= MAX_BUFFER_SIZE
  }

  method CallAdd(b: FlatBufferBuilder, field: nat, e: seq<byte>, def: seq<byte>, ghost doc: Doc, ghost made: seq<Offset>)
    requires b.Valid() && b.nested && FieldId(field) && |e| == |def| && IsScalarSize(|e|)
    requires e != def || b.forceDefaults ==> field !in b.current && SizeAfter(b.vec.size, |e|) <= MAX_BUFFER_SIZE
    requires Represents(b, doc, made)
    modifies b`numFieldLoc, b`maxVoffset, b`fields, b`minalign, b`current, b.vec, b.vec.buf
    ensures b.Valid() && (b.vec.buf == old(b.vec.buf) || fresh(b.vec.buf))
    ensures b.current.Keys == old(b.current).Keys + if e != def || b.forceDefaults then {field} else {}
    ensures Represents(b, Do(doc, Add(field, e, def), b.forceDefaults), made)
    ensures b.vec.size <= old(b.vec.size) + Cost(Add(field, e, def))
  {
    hide Kept, Matches, Extends, Shape, Words, Locs, Pushed, PaddingBytes, AlignedFields, AlignedTables;
    ghost var d, current := b.vec.Data(), b.current;
    b.AddElement(field, e, def);
    if e != def || b.forceDefaults {
      PushedExtends(e, d);
      RecordsSet(d, b.vec.Data(), current, b.tables, doc, made, field, b.current[field], Scalar(e));
    }
  }

  lemma PushedExtends(e: seq<byte>, d: seq<byte>)
    requires IsScalarSize(|e|)
    ensures Extends(Pushed(e, d), d)
  {
  }

  method CallRefer(b: FlatBufferBuilder, field: nat, obj: Option<nat>, ghost doc: Doc, made: seq<Offset>)
    requires b.Valid() && b.nested && FieldId(field) && Represents(b, doc, made)
    requires obj.Some? ==>
      obj.value < |made| && field !in b.current && SizeAfter(b.vec.size, 4) <= MAX_BUFFER_SIZE
    modifies b`numFieldLoc, b`maxVoffset, b`fields, b`minalign, b`current, b.vec, b.vec.buf
    ensures b.Valid() && (b.vec.buf == old(b.vec.buf) || fresh(b.vec.buf))
    ensures b.current.Keys == old(b.current).Keys + if obj.Some? then {field} else {}
    ensures Represents(b, Do(doc, Refer(field, obj), b.forceDefaults), made)
    ensures b.vec.size <= old(b.vec.size) + Cost(Refer(field, obj))
  {
    hide Kept, Matches, Extends, Shape, Words, Locs, PaddingBytes, AlignedFields, AlignedTables, FromLE;
    if obj.None? {
      b.AddOffset(field, 0);
    } else {
      ghost var d, current := b.vec.Data(), b.current;
      RefInside(d, b.nested, current, b.tables, doc, made, obj.value);
      b.AddOffset(field, made[obj.value]);
      RecordsSet(d, b.vec.Data(), current, b.tables, doc, made, field, b.current[field], Ref(obj.value));
    }
  }

  method CallStr(b: FlatBufferBuilder, bytes: seq<byte>, ghost doc: Doc, made0: seq<Offset>) returns (made: seq<Offset>)
    requires b.Valid() && !b.nested && SizeAfter(b.vec.size + |bytes| + 1, 4) <= MAX_BUFFER_SIZE
    requires Represents(b, doc, made0)
    modifies b`minalign, b`base, b.vec, b.vec.buf
    ensures b.Valid() && (b.vec.buf == old(b.vec.buf) || fresh(b.vec.buf)) && made0 <= made
    ensures Represents(b, Do(doc, Str(bytes), b.forceDefaults), made)
    ensures old(b.NoneTwice()) && b.dedupVtables ==> b.NoneTwice()
    ensures b.vec.size <= old(b.vec.size) + Cost(Str(bytes))
  {
    hide Kept, Matches, Extends, Shape, Words, Locs, PaddingBytes, AlignedFields, AlignedTables, StringAt, Distinct;
    Padded(b.vec.size + |bytes| + 1, 4);
    ghost var d := b.vec.Data();
    var off := b.CreateString(bytes);
    made := made0 + [off];
    StringInside(b.vec.Data(), off, bytes);
    RecordsStr(d, b.vec.Data(), b.current, b.tables, doc, made0, off, bytes);
  }

  lemma StringInside(d: seq<byte>, off: nat, bytes: seq<byte>)
    requires StringAt(d, off, bytes)
    ensures 0 < off <= |d|
  {
  }

  method CallEnd(b: FlatBufferBuilder, start: nat, ghost doc: Doc, made0: seq<Offset>) returns (made: seq<Offset>)
    requires b.Valid() && b.nested && start == |b.base| && SizeAfter(b.vec.size, 4) - start < 0x1_0000
    requires SizeAfter(b.vec.size, 4) + VTableBytes(b.maxVoffset) <= MAX_BUFFER_SIZE
    requires Represents(b, doc, made0)
    modifies b`numFieldLoc, b`maxVoffset, b`fields, b`vtables, b`minalign, b`nested, b`base, b`current, b`tables,
             b.vec, b.vec.buf
    ensures b.Valid() && !b.nested && (b.vec.buf == old(b.vec.buf) || fresh(b.vec.buf)) && made0 <= made
    ensures Represents(b, Do(doc, End, b.forceDefaults), made)
    ensures old(b.NoneTwice()) && b.dedupVtables ==> b.NoneTwice()
    ensures b.vec.size <= old(b.vec.size) + Cost(End)
  {
    hide Kept, Matches, Extends, Shape, Words, Locs, PaddingBytes, AlignedFields, AlignedTables, ReadsAs, Distinct;
    Padded(b.vec.size, 4);
    ShapeLimits(b.vec.Data(), b.base, b.nested, b.maxVoffset, b.vtables, b.fields, b.current, b.tables);
    ghost var d, current, tables := b.vec.Data(), b.current, b.tables;
    var table := b.EndTable(start);
    made := made0 + [table];
    RecordsEnd(d, b.vec.Data(), current, tables, doc, made0, table);
  }

  /** One call, and what it does to the document. */
  method Call(b: FlatBufferBuilder, op: Op, start0: nat, used0: set<nat>, made0: seq<Offset>, ghost doc: Doc)
    returns (start: nat, used: set<nat>, made: seq<Offset>)
    requires b.Valid() && MayCall(b, op, start0, used0, |made0|) && Represents(b, doc, made0)
    requires b.nested ==> start0 == |b.base| && used0 == b.current.Keys
    modifies b`numFieldLoc, b`maxVoffset, b`fields, b`vtables, b`minalign, b`nested, b`base, b`current, b`tables,
             b.vec, b.vec.buf
    ensures b.Valid() && (b.vec.buf == old(b.vec.buf) || fresh(b.vec.buf))
    ensures b.nested ==> start == |b.base| && used == b.current.Keys
    ensures Represents(b, Do(doc, op, b.forceDefaults), made) && made0 <= made
    ensures old(b.NoneTwice()) && b.dedupVtables ==> b.NoneTwice()
    ensures b.vec.size <= old(b.vec.size) + Cost(op) && (op.Start? ==> |b.base| == b.vec.size)
    ensures b.nested && !op.Start? ==> old(b.nested) && |b.base| == |old(b.base)|
  {
    hide Kept, Matches, Extends, Shape, Words, Locs, PaddingBytes, AlignedFields, AlignedTables, Distinct;
    start, used, made := start0, used0, made0;
    match op {
      case Start =>
        RecordsStart(b.vec.Data(), b.current, b.tables, doc, made);
        start := b.StartTable();
        used := {};
      case Add(field, e, def) =>
        CallAdd(b, field, e, def, doc, made);
        if e != def || b.forceDefaults { used := used + {field}; }
      case Refer(field, obj) =>
        CallRefer(b, field, obj, doc, made);
        if obj.Some? { used := used + {field}; }
      case Str(bytes) => made := CallStr(b, bytes, doc, made);
      case End => made := CallEnd(b, start, doc, made);
    }
  }

  /** Every sequence of calls that the assertions allow, with vtables shared or not and
      however often the buffer moves: after as many calls as were let through, every object
      that they make is there and reads as exactly what was put into it. A program that keeps
      the calls' rules and the size limits is let through to its end. */
  method Run(b: FlatBufferBuilder, ops: seq<Op>) returns (n: nat, made: seq<Offset>)
    requires b.Valid() && !b.nested
    modifies b`numFieldLoc, b`maxVoffset, b`fields, b`vtables, b`minalign, b`nested, b`base, b`current, b`tables,
             b.vec, b.vec.buf
    ensures b.Valid() && (b.vec.buf == old(b.vec.buf) || fresh(b.vec.buf)) && n <= |ops|
    ensures ReadsBack(b.vec.Data(), made, After(ops[..n], b.forceDefaults).objs)
    ensures Represents(b, After(ops[..n], b.forceDefaults), made)
    ensures n < |ops| ==> !MayCall(b, ops[n], |b.base|, b.current.Keys, |made|)
    ensures old(b.vec.size) == 0 && KeepsRules(ops, b.forceDefaults) ==> n == |ops|
    ensures b.vec.size <= old(b.vec.size) + Total(ops[..n])
    ensures old(b.NoneTwice()) && b.dedupVtables ==> b.NoneTwice()
  {
    hide Kept, Matches, Shape, AlignedFields, AlignedTables, Words, Locs, PaddingBytes, Do, MayCall, Distinct, KeepsRules,
         Cost, Total, Open;
    ghost var size0 := b.vec.size;
    var start: nat, used: set<nat> := 0, {};
    n, made := 0, [];
    NothingKept(b.vec.Data(), b.tables);
    while n < |ops| && MayCall(b, ops[n], start, used, |made|)
      invariant b.Valid() && (b.vec.buf == old(b.vec.buf) || fresh(b.vec.buf)) && n <= |ops|
      invariant b.nested ==> start == |b.base| && used == b.current.Keys
      invariant Represents(b, After(ops[..n], b.forceDefaults), made)
      invariant old(b.NoneTwice()) && b.dedupVtables ==> b.NoneTwice()
      invariant b.vec.size <= size0 + Total(ops[..n]) && (b.nested ==> b.vec.size <= |b.base| + Open(ops[..n]))
    {
      assert ops[..n + 1][..n] == ops[..n];
      Costs(ops, n);
      start, used, made := Call(b, ops[n], start, used, made, After(ops[..n], b.forceDefaults));
      n := n + 1;
    }
    if n < |ops| {
      Unnested(b, ops, n, start, used, made);
      if size0 == 0 && KeepsRules(ops, b.forceDefaults) { NotStopped(b, ops, n, made); }
    }
    b.TablesHold();
    KeptReads(b.vec.Data(), b.tables, After(ops[..n], b.forceDefaults).objs, made);
  }

  lemma Costs(ops: seq<Op>, n: nat)
    requires n < |ops|
    ensures Total(ops[..n + 1]) == Total(ops[..n]) + Cost(ops[n])
    ensures Open(ops[..n + 1]) == if ops[n].Start? then 0 else Open(ops[..n]) + Cost(ops[n])
    ensures Total([]) == 0 && ops[..0] == []
  {
    hide Cost;
    assert ops[..n + 1][..n] == ops[..n];
  }

  /** A program that keeps the rules is not stopped at its next call. */
  lemma NotStopped(b: FlatBufferBuilder, ops: seq<Op>, n: nat, made: seq<Offset>)
    requires b.Valid() && n < |ops| && KeepsRules(ops, b.forceDefaults) && Represents(b, After(ops[..n], b.forceDefaults), made)
    requires b.vec.size <= Total(ops[..n]) && (b.nested ==> b.vec.size <= |b.base| + Open(ops[..n]))
    ensures MayCall(b, ops[n], |b.base|, b.current.Keys, |made|)
  {
    hide Shape, AlignedFields, AlignedTables, Words, Locs, Do, Total, Open;
    var doc, op := After(ops[..n], b.forceDefaults), ops[n];
    assert Legal(doc, op, b.forceDefaults) && (op.End? ==> Open(ops[..n]) + 7 < 0x1_0000);
    TotalGrows(ops, n + 1);
    Costs(ops, n);
    ShapeLimits(b.vec.Data(), b.base, b.nested, b.maxVoffset, b.vtables, b.fields, b.current, b.tables);
    KeptKeys(b, doc, made);
    Padded(b.vec.size, 4);
    match op {
      case Add(_, e, _) => Padded(b.vec.size, |e|);
      case Str(bytes) => Padded(b.vec.size + |bytes| + 1, 4);
      case _ =>
    }
  }

  lemma Padded(size: nat, n: nat)
    requires IsScalarSize(n)
    ensures SizeAfter(size, n) <= size + n + n - 1
  {
  }

  lemma ShapeLimits(d: seq<byte>, base: seq<byte>, nested: bool, maxVoffset: nat, vtables: seq<nat>,
                    fields: seq<FieldLoc>, current: map<nat, Stored>, tables: map<nat, map<nat, Stored>>)
    requires Shape(d, base, nested, maxVoffset, vtables, fields, current, tables)
    ensures |base| <= |d| && VTableBytes(maxVoffset) <= 65535
  {
  }

  lemma KeptKeys(b: FlatBufferBuilder, doc: Doc, made: seq<Offset>)
    requires b.Valid() && Represents(b, doc, made)
    ensures |made| == |doc.objs| && b.nested == doc.open.Some? && (b.nested ==> b.current.Keys == doc.open.value.Keys)
  {
    hide Shape, AlignedFields, AlignedTables, Words, Locs, ObjKept, ValueMatches;
  }

  lemma NothingKept(d: seq<byte>, tables: map<nat, map<nat, Stored>>)
    ensures Kept(d, tables, [], [])
  {
  }

  /** What start and used fields do not matter outside a table. */
  lemma Unnested(b: FlatBufferBuilder, ops: seq<Op>, n: nat, start: nat, used: set<nat>, made: seq<Offset>)
    requires b.Valid() && n < |ops| && (b.nested ==> start == |b.base| && used == b.current.Keys)
    ensures MayCall(b, ops[n], start, used, |made|) == MayCall(b, ops[n], |b.base|, b.current.Keys, |made|)
  {
  }

  // ---------------------------------------------------------------- finishing, and sharing vtables

  /** What is in place in the buffer is in place for the reader. */
  lemma KeptAligned(d: seq<byte>, tables: map<nat, map<nat, Stored>>, objs: seq<Obj>, made: seq<Offset>)
    requires Kept(d, tables, objs, made) && AllInPlace(|d|, tables) && |d| % 4 == 0
    requires forall t :: t in tables ==> ReadsAs(d, t, tables[t]) && forall f :: f in tables[t] ==> FieldId(f)
    ensures AllObjAligned(d, made, objs)
  {
    hide Matches, ReadsAs, StringAt, Readable, FieldAligned;
    forall k | 0 <= k < |objs| ensures ObjAligned(d, made[k], objs[k]) {
      assert ObjKept(d, tables, objs[k], made[k], made);
      if objs[k].Table? { TableAligned(d, made[k], tables[made[k]], objs[k].fields, made); }
    }
  }

  lemma FieldsKnown(tables: map<nat, map<nat, Stored>>, m: nat)
    requires AlignedTables(tables, m)
    ensures forall t :: t in tables ==> forall f :: f in tables[t] ==> FieldId(f)
  {
  }

  lemma TableAligned(d: seq<byte>, t: Offset, stored: map<nat, Stored>, fields: map<nat, Value>, made: seq<Offset>)
    requires ReadsAs(d, t, stored) && Matches(stored, fields, made)
    requires forall f :: f in stored ==> FieldId(f) && InPlace(|d|, stored[f])
    ensures Readable(d, t) && forall f :: f in fields ==> FieldId(f) && FieldAligned(d, t, f, Width(fields[f]))
  {
    hide GetOptionalFieldOffset, FromEnd, FromLE;
    forall f | f in fields ensures FieldId(f) && FieldAligned(d, t, f, Width(fields[f])) {
      HoldsEach(d, t, stored, f);
      assert ValueMatches(stored[f], fields[f], made);
    }
  }

  /** Finish: the first word leads to the root, every object still reads as before, and every
      object and field lies at a multiple of its size, counted from the front of the buffer. */
  method FinishDocument(b: FlatBufferBuilder, root: nat, ghost doc: Doc, made: seq<Offset>)
    requires b.Valid() && !b.nested && Represents(b, doc, made)
    requires root < |made| && b.vec.size + 16 <= MAX_BUFFER_SIZE
    modifies b`minalign, b`base, b`vtables, b`finished, b.vec, b.vec.buf
    ensures b.Valid() && b.finished && Represents(b, doc, made)
    ensures b.vec.size >= 4 && b.vec.size - FromLE(b.vec.Data()[..4]) == made[root]
    ensures ReadsBack(b.vec.Data(), made, doc.objs) && AllObjAligned(b.vec.Data(), made, doc.objs)
  {
    hide Kept, Matches, Extends, Shape, Words, Locs, FromLE, ReadsAs, AllInPlace, AlignedFields, AlignedTables, Records,
         ReadsBack, AllObjAligned, IsScalarSize;
    ghost var d, current := b.vec.Data(), b.current;
    RefInside(d, false, current, b.tables, doc, made, root);
    b.Finish(made[root]);
    Multiple(b.vec.size, b.minalign);
    FinishKeeps(d, b.vec.Data(), current, b.tables, doc, made, b.minalign);
  }

  lemma Multiple(size: nat, m: nat)
    requires IsScalarSize(m) && m >= 4 && size % m == 0
    ensures size % 4 == 0
  {
  }

  lemma FinishKeeps(d0: seq<byte>, d: seq<byte>, current: map<nat, Stored>, tables: map<nat, map<nat, Stored>>, doc: Doc,
                    made: seq<Offset>, m: nat)
    requires Records(d0, false, current, tables, doc, made) && Extends(d, d0) && |d| % 4 == 0
    requires AllInPlace(|d|, tables) && AlignedTables(tables, m) && forall t :: t in tables ==> ReadsAs(d, t, tables[t])
    ensures Records(d, false, current, tables, doc, made)
    ensures ReadsBack(d, made, doc.objs) && AllObjAligned(d, made, doc.objs)
  {
    hide Kept, Matches, Extends, ReadsAs, AllInPlace, AlignedTables, AllObjAligned;
    KeptGrows(d0, d, tables, tables, doc.objs, made);
    KeptReads(d, tables, doc.objs, made);
    FieldsKnown(tables, m);
    KeptAligned(d, tables, doc.objs, made);
  }

  method RunFresh(ops: seq<Op>, initialSize: nat, minalign: nat, force: bool, dedup: bool)
    returns (b: FlatBufferBuilder, n: nat, made: seq<Offset>)
    requires minalign > 0
    ensures fresh(b) && fresh(b.vec) && fresh(b.vec.buf) && b.Valid() && b.dedupVtables == dedup && n <= |ops|
    ensures b.forceDefaults == force && ReadsBack(b.vec.Data(), made, After(ops[..n], force).objs)
    ensures n < |ops| ==> !MayCall(b, ops[n], |b.base|, b.current.Keys, |made|)
    ensures dedup ==> b.NoneTwice()
    ensures KeepsRules(ops, force) ==> n == |ops|
    ensures Represents(b, After(ops[..n], force), made) && b.vec.size <= Total(ops[..n])
  {
    hide KeepsRules, Kept, Matches, Shape, AlignedFields, AlignedTables, Words, Locs, MayCall, ReadsBack, After, Distinct;
    b := new FlatBufferBuilder(initialSize, minalign);
    b.forceDefaults, b.dedupVtables := force, dedup;
    n, made := Run(b, ops);
  }

  /** The same calls on a builder that shares vtables and on one that does not: every object
      that both have made gives the same answers in the two buffers, and the first remembers
      no vtable twice. */
  method CompareSharing(ops: seq<Op>, initialSize: nat, minalign: nat, force: bool)
    returns (shared: FlatBufferBuilder, plain: FlatBufferBuilder, made1: seq<Offset>, made2: seq<Offset>, n1: nat, n2: nat)
    requires minalign > 0
    ensures shared.NoneTwice() && (KeepsRules(ops, force) ==> n1 == n2 == |ops|)
    ensures shared.dedupVtables && !plain.dedupVtables && shared.Valid() && plain.Valid() && n1 <= |ops| && n2 <= |ops|
    ensures n1 < |ops| ==> !MayCall(shared, ops[n1], |shared.base|, shared.current.Keys, |made1|)
    ensures n2 < |ops| ==> !MayCall(plain, ops[n2], |plain.base|, plain.current.Keys, |made2|)
    ensures ReadsBack(shared.vec.Data(), made1, After(ops[..n1], force).objs)
    ensures ReadsBack(plain.vec.Data(), made2, After(ops[..n2], force).objs)
    ensures AllAlike(shared.vec.Data(), made1, plain.vec.Data(), made2, After(ops[..n1], force).objs)
  {
    hide KeepsRules, Shape, AlignedFields, AlignedTables, Words, Locs, MayCall, AllAlike, ReadsBack, After, Distinct;
    shared, n1, made1 := RunFresh(ops, initialSize, minalign, force, true);
    plain, n2, made2 := RunFresh(ops, initialSize, minalign, force, false);
    AllAnswersAlike(ops, n1, n2, force, shared.vec.Data(), made1, plain.vec.Data(), made2);
  }

  /** Every object of which both buffers have one. */
  ghost predicate AllAlike(d1: seq<byte>, made1: seq<Offset>, d2: seq<byte>, made2: seq<Offset>, objs: seq<Obj>) {
    |made1| == |objs| && forall k :: 0 <= k < |made1| && k < |made2| ==> Alike(d1, made1, d2, made2, k, objs[k])
  }

  lemma AllAnswersAlike(ops: seq<Op>, n1: nat, n2: nat, force: bool, d1: seq<byte>, made1: seq<Offset>,
                        d2: seq<byte>, made2: seq<Offset>)
    requires n1 <= |ops| && n2 <= |ops|
    requires ReadsBack(d1, made1, After(ops[..n1], force).objs) && ReadsBack(d2, made2, After(ops[..n2], force).objs)
    ensures AllAlike(d1, made1, d2, made2, After(ops[..n1], force).objs)
  {
    hide Alike, ObjReads;
    forall k | 0 <= k < |made1| && k < |made2| ensures Alike(d1, made1, d2, made2, k, After(ops[..n1], force).objs[k]) {
      AnswersAlike(ops, n1, n2, force, d1, made1, d2, made2, k);
    }
  }

  lemma AnswersAlike(ops: seq<Op>, n1: nat, n2: nat, force: bool, d1: seq<byte>, made1: seq<Offset>,
                     d2: seq<byte>, made2: seq<Offset>, k: nat)
    requires n1 <= |ops| && n2 <= |ops| && k < |made1| && k < |made2|
    requires ReadsBack(d1, made1, After(ops[..n1], force).objs) && ReadsBack(d2, made2, After(ops[..n2], force).objs)
    ensures Alike(d1, made1, d2, made2, k, After(ops[..n1], force).objs[k])
  {
    hide ObjReads, AlikeField, StringAt;
    var obj := After(ops[..n1], force).objs[k];
    if n1 <= n2 { AfterPrefix(ops, n1, n2, force); } else { AfterPrefix(ops, n2, n1, force); }
    assert ObjReads(d1, made1[k], obj, made1) && ObjReads(d2, made2[k], obj, made2);
    BothRead(d1, made1[k], obj, made1);
    BothRead(d2, made2[k], obj, made2);
    if obj.Table? {
      forall f, def | Asks(obj.fields, f, def) ensures AlikeField(d1, made1, d2, made2, k, obj.fields, f, def) {
        AnswerAlike(d1, made1, d2, made2, k, obj.fields, f, def);
      }
    }
  }

  lemma BothRead(d: seq<byte>, at: Offset, obj: Obj, made: seq<Offset>)
    requires ObjReads(d, at, obj, made)
    ensures if obj.Text? then StringAt(d, at, obj.bytes) else Readable(d, at)
  {
  }

  // ---------------------------------------------------------------- every list of objects is built

  /** A table's fields: scalars of 1, 2, 4 or 8 bytes and references to the first `k` objects. */
  ghost predicate FieldsOk(fields: map<nat, Value>, k: nat) {
    forall f :: f in fields ==>
      && 4 <= f < 0xFFFE && f % 2 == 0
      && match fields[f] case Scalar(bytes) => |bytes| in {1, 2, 4, 8} case Ref(obj) => obj < k
  }

  /** No more than this for the fields below `m`, padding included. */
  function FieldsWeight(fields: map<nat, Value>, m: nat): (n: nat) {
    if m == 0 then 0
    else FieldsWeight(fields, m - 1) + if m - 1 !in fields then 0 else match fields[m - 1] case Scalar(bytes) => |bytes| + 7 case Ref(_) => 7
  }

  function Weight(obj: Obj): (n: nat) {
    match obj
    case Text(bytes) => |bytes| + 8
    case Table(fields) => FieldsWeight(fields, 0xFFFE) + 7 + 65535
  }

  function WeightOf(objs: seq<Obj>): (n: nat) {
    if objs == [] then 0 else WeightOf(objs[..|objs| - 1]) + Weight(objs[|objs| - 1])
  }

  /** Tables stay below 64 KB and refer to objects made before. */
  ghost predicate WellFormed(objs: seq<Obj>) {
    forall k :: 0 <= k < |objs| && objs[k].Table? ==>
      FieldsOk(objs[k].fields, k) && FieldsWeight(objs[k].fields, 0xFFFE) + 7 < 0x1_0000
  }

  /** Bytes that are not those. */
  function Other(bytes: seq<byte>): (r: seq<byte>) {
    if bytes == [] then [] else [if bytes[0] == 0 then 1 else 0] + bytes[1..]
  }

  function StoreOp(f: nat, v: Value): (op: Op) {
    match v case Scalar(bytes) => Add(f, bytes, Other(bytes)) case Ref(obj) => Refer(f, Some(obj))
  }

  function FieldOps(fields: map<nat, Value>, m: nat): (ops: seq<Op>) {
    if m == 0 then []
    else if m - 1 in fields then FieldOps(fields, m - 1) + [StoreOp(m - 1, fields[m - 1])]
    else FieldOps(fields, m - 1)
  }

  function ObjOps(obj: Obj): (ops: seq<Op>) {
    match obj case Text(bytes) => [Str(bytes)] case Table(fields) => [Start] + FieldOps(fields, 0xFFFE) + [End]
  }

  /** The calls that make the objects one after the other, fields in the order of their places. */
  function DocOps(objs: seq<Obj>): (ops: seq<Op>) {
    if objs == [] then [] else DocOps(objs[..|objs| - 1]) + ObjOps(objs[|objs| - 1])
  }

  lemma Snoc(ops: seq<Op>, op: Op, force: bool)
    ensures After(ops + [op], force) == Do(After(ops, force), op, force) && Total(ops + [op]) == Total(ops) + Cost(op)
    ensures Open(ops + [op]) == if op.Start? then 0 else Open(ops) + Cost(op)
  {
    hide Do, Cost;
    assert (ops + [op])[..|ops|] == ops;
  }

  lemma LawfulSnoc(ops: seq<Op>, op: Op, force: bool)
    requires Lawful(ops, force) && Legal(After(ops, force), op, force) && (op.End? ==> Open(ops) + 7 < 0x1_0000)
    ensures Lawful(ops + [op], force)
  {
    hide Legal, After, Open;
    var all := ops + [op];
    assert all[..|ops|] == ops;
    forall i | 0 <= i < |all|
      ensures Legal(After(all[..i], force), all[i], force) && (all[i].End? ==> Open(all[..i]) + 7 < 0x1_0000)
    {
      if i < |ops| { assert all[..i] == ops[..i] && all[i] == ops[i]; }
    }
  }

  function Below(fields: map<nat, Value>, m: nat): (r: map<nat, Value>) {
    map f | f in fields && f < m :: fields[f]
  }

  lemma {:induction false} FieldsMade(ops: seq<Op>, objs: seq<Obj>, fields: map<nat, Value>, m: nat, force: bool)
    requires Lawful(ops, force) && After(ops, force) == Doc(objs, Some(map[])) && Open(ops) == 0 && FieldsOk(fields, |objs|)
    ensures var all := ops + FieldOps(fields, m);
            && Lawful(all, force) && After(all, force) == Doc(objs, Some(Below(fields, m)))
            && Total(all) == Total(ops) + FieldsWeight(fields, m) && Open(all) == FieldsWeight(fields, m)
    decreases m
  {
    hide Lawful, After, Total, Open;
    if m == 0 {
      assert ops + [] == ops;
    } else {
      FieldsMade(ops, objs, fields, m - 1, force);
      if m - 1 in fields {
        var before, op := ops + FieldOps(fields, m - 1), StoreOp(m - 1, fields[m - 1]);
        Snoc(before, op, force);
        LawfulSnoc(before, op, force);
        assert before + [op] == ops + FieldOps(fields, m);
        assert Below(fields, m) == Below(fields, m - 1)[m - 1 := fields[m - 1]];
      } else {
        assert Below(fields, m) == Below(fields, m - 1);
      }
    }
  }

  lemma ObjMade(ops: seq<Op>, objs: seq<Obj>, obj: Obj, force: bool)
    requires Lawful(ops, force) && After(ops, force) == Doc(objs, None)
    requires obj.Table? ==> FieldsOk(obj.fields, |objs|) && FieldsWeight(obj.fields, 0xFFFE) + 7 < 0x1_0000
    ensures var all := ops + ObjOps(obj);
            Lawful(all, force) && After(all, force) == Doc(objs + [obj], None) && Total(all) == Total(ops) + Weight(obj)
  {
    hide Lawful, After, Total, Open, FieldOps, FieldsWeight;
    match obj {
      case Text(bytes) =>
        Snoc(ops, Str(bytes), force);
        LawfulSnoc(ops, Str(bytes), force);
      case Table(fields) =>
        Snoc(ops, Start, force);
        LawfulSnoc(ops, Start, force);
        FieldsMade(ops + [Start], objs, fields, 0xFFFE, force);
        var before := ops + [Start] + FieldOps(fields, 0xFFFE);
        assert Below(fields, 0xFFFE) == fields;
        Snoc(before, End, force);
        LawfulSnoc(before, End, force);
        assert before + [End] == ops + ObjOps(obj);
    }
  }

  lemma NothingMade(force: bool)
    ensures Lawful([], force) && After([], force) == Doc([], None) && Total([]) == 0
  {
  }

  /** The calls for well-formed objects keep the rules and make exactly these objects. */
  lemma {:induction false} ObjsMade(objs: seq<Obj>, force: bool)
    requires WellFormed(objs)
    ensures Lawful(DocOps(objs), force) && After(DocOps(objs), force) == Doc(objs, None) && Total(DocOps(objs)) == WeightOf(objs)
    decreases |objs|
  {
    hide ObjOps, Weight, FieldsOk, FieldsWeight, Legal, Lawful, After, Total;
    if objs == [] {
      NothingMade(force);
    } else {
      var before, last := objs[..|objs| - 1], objs[|objs| - 1];
      ObjsMade(before, force);
      ObjMade(DocOps(before), before, last, force);
      assert before + [last] == objs;
    }
  }

  /** Every list of strings and tables, tables referring to earlier objects, is built by these
      calls: each object reads back as it was given and is aligned, and the first word leads to
      the root, whether defaults are forced or vtables shared. */
  method BuildObjects(objs: seq<Obj>, root: nat, force: bool, dedup: bool) returns (b: FlatBufferBuilder, made: seq<Offset>)
    requires WellFormed(objs) && root < |objs| && WeightOf(objs) + 16 <= 0x7FFF_FFFF
    ensures b.Valid() && b.finished && |made| == |objs| && b.vec.size >= 4
    ensures b.vec.size - FromLE(b.vec.Data()[..4]) == made[root]
    ensures ReadsBack(b.vec.Data(), made, objs) && AllObjAligned(b.vec.Data(), made, objs)
  {
    hide Shape, AlignedFields, AlignedTables, Words, Locs, MayCall, ReadsBack, AllObjAligned, After, Lawful, DocOps, Distinct,
         FromLE, Kept, Matches;
    ObjsMade(objs, force);
    var ops, n := DocOps(objs), 0;
    b, n, made := RunFresh(ops, 1024, 8, force, dedup);
    assert ops[..|ops|] == ops;
    KeptKeys(b, After(ops, force), made);
    FinishDocument(b, root, After(ops, force), made);
  }

  /** A table with a 64-bit and a 32-bit field, as generated code makes it. */
  function PairOps(wide: seq<byte>, narrow: seq<byte>): (ops: seq<Op>) {
    [Start, Add(6, wide, seq(8, _ => 0)), Add(4, narrow, seq(4, _ => 0)), End]
  }

  lemma BothFields(wide: Value, narrow: Value)
    ensures map[6 := wide][4 := narrow] == map[6 := wide, 4 := narrow]
  {
    var a, b := map[6 := wide][4 := narrow], map[6 := wide, 4 := narrow];
    assert a.Keys == b.Keys;
  }

  lemma PairKeepsRules(wide: seq<byte>, narrow: seq<byte>)
    requires |wide| == 8 && |narrow| == 4
    ensures KeepsRules(PairOps(wide, narrow), true)
    ensures After(PairOps(wide, narrow), true) == Doc([Table(map[6 := Scalar(wide), 4 := Scalar(narrow)])], None)
    ensures Total(PairOps(wide, narrow)) <= 0x2_0000
  {
    hide After, Total, Open, Lawful;
    var add1, add2 := Add(6, wide, seq(8, _ => 0)), Add(4, narrow, seq(4, _ => 0));
    assert [] + [Start] == [Start] && [Start] + [add1] == [Start, add1] && [Start, add1] + [add2] == [Start, add1, add2];
    assert [Start, add1, add2] + [End] == PairOps(wide, narrow);
    NothingMade(true);
    Snoc([], Start, true);
    LawfulSnoc([], Start, true);
    Snoc([Start], add1, true);
    LawfulSnoc([Start], add1, true);
    Snoc([Start, add1], add2, true);
    LawfulSnoc([Start, add1], add2, true);
    Snoc([Start, add1, add2], End, true);
    LawfulSnoc([Start, add1, add2], End, true);
    BothFields(Scalar(wide), Scalar(narrow));
  }

  /** Such a table is built and finished, with its fields aligned, whatever they hold. */
  method PairExample(wide: seq<byte>, narrow: seq<byte>, dedup: bool) returns (b: FlatBufferBuilder, made: seq<Offset>)
    requires |wide| == 8 && |narrow| == 4
    ensures b.Valid() && b.finished && b.vec.size >= 4 && |made| == 1
    ensures b.vec.size - FromLE(b.vec.Data()[..4]) == made[0]
    ensures var objs := [Table(map[6 := Scalar(wide), 4 := Scalar(narrow)])];
            ReadsBack(b.vec.Data(), made, objs) && AllObjAligned(b.vec.Data(), made, objs)
  {
    hide Shape, AlignedFields, AlignedTables, Words, Locs, MayCall, ReadsBack, AllObjAligned, After, KeepsRules, PairOps, Distinct,
         FromLE, Kept, Matches;
    PairKeepsRules(wide, narrow);
    var ops := PairOps(wide, narrow);
    var n;
    b, n, made := RunFresh(ops, 1024, 8, true, dedup);
    assert ops[..|ops|] == ops;
    KeptKeys(b, After(ops, true), made);
    FinishDocument(b, 0, After(ops, true), made);
  }
}
