/** The vectors and maps of flatbuffers/flexbuffers.h: one width for all elements, chosen
    before it is known how far the offsets among them reach. */
module FlexBuilder {
  import opened Arithmetic
  import opened Bytes
  import opened FlatFormat
  import opened Options

  /** BitWidth: the base-2 logarithm of a width in bytes. */
  type Width = w: nat | w <= 3 witness 0

  function ByteWidth(w: Width): (n: nat)
    ensures IsScalarSize(n)
  {
    if w == 0 then 1 else if w == 1 then 2 else if w == 2 then 4 else 8
  }

  /** How many values `n` bytes can hold. */
  function Range(w: Width): (n: nat) {
    if w == 0 then 0x100 else if w == 1 then 0x1_0000 else if w == 2 then 0x1_0000_0000 else 0x1_0000_0000_0000_0000
  }

  const LIMIT: nat := 0x1_0000_0000_0000_0000

  lemma RangeIsPow256(w: Width)
    ensures Range(w) == Pow256(ByteWidth(w))
  {
    assert Pow256(1) == 0x100 && Pow256(2) == 0x1_0000;
    assert Pow256(3) == 0x100_0000 && Pow256(4) == 0x1_0000_0000;
    assert Pow256(5) == 0x100_0000_0000 && Pow256(6) == 0x1_0000_0000_0000;
    assert Pow256(7) == 0x100_0000_0000_0000 && Pow256(8) == 0x1_0000_0000_0000_0000;
  }

  /** WidthU (flatbuffers/flexbuffers.h:188-198): the least width that holds `u`. */
  function WidthU(u: nat): (w: Width)
    ensures u < LIMIT ==> u < Range(w)
    ensures forall v: Width :: v < w ==> u >= Range(v)
  {
    if u < Range(0) then 0 else if u < Range(1) then 1 else if u < Range(2) then 2 else 3
  }

  /** WidthI (flatbuffers/flexbuffers.h:200-203), over the 64-bit pattern of `i`. */
  function WidthI(i: int): (w: Width)
    requires -0x8000_0000_0000_0000 <= i < 0x8000_0000_0000_0000
    ensures -(Range(w) as int) <= 2 * i < Range(w)
  {
    if i >= 0 then WidthU(2 * i) else WidthU(-(2 * i) - 1)
  }

  function Max(a: Width, b: Width): (m: Width)
    ensures m >= a && m >= b && (m == a || m == b)
  {
    if a > b then a else b
  }

  // ---------------------------------------------------------------- values on the stack

  /** An integer kept in place, or something written before and referred to. */
  datatype Value =
    | Int(i: int)
    | UInt(u: nat)
    | Ref(at: nat, kind: nat, width: Width)

  /** The 64 bits of a value, and a type that fits its six bits. */
  predicate Sound(v: Value) {
    match v
    case Int(i) => -0x8000_0000_0000_0000 <= i < 0x8000_0000_0000_0000
    case UInt(u) => u < LIMIT
    case Ref(_, kind, _) => 4 <= kind < 64
  }

  predicate InLimits(v: Value, size: nat) {
    Sound(v) && (v.Ref? ==> v.at <= size)
  }

  function MinBitWidth(v: Value): (w: Width)
    requires v.Int? ==> -0x8000_0000_0000_0000 <= v.i < 0x8000_0000_0000_0000
  {
    match v
    case Int(i) => WidthI(i)
    case UInt(u) => WidthU(u)
    case Ref(_, _, width) => width
  }

  /** Where element `index` goes if the elements have width `w`. */
  function Place(size: nat, index: nat, w: Width): (p: nat)
    ensures p >= size
  {
    size + PaddingBytes(size, ByteWidth(w)) + index * ByteWidth(w)
  }

  /** A wider element needs no less padding, and no more than one narrower element more. */
  lemma PaddingGrows(size: nat, w: Width)
    requires w < 3
    ensures var p := PaddingBytes(size, ByteWidth(w));
            p <= PaddingBytes(size, ByteWidth(w + 1)) <= p + ByteWidth(w)
  {
    if w == 1 {
      HalfRemainder(size, 2);
    } else if w == 2 {
      HalfRemainder(size, 4);
    }
  }

  lemma HalfRemainder(size: nat, m: nat)
    requires m == 2 || m == 4
    ensures size % m == if size % (2 * m) < m then size % (2 * m) else size % (2 * m) - m
  {
    var q, r := size / (2 * m), size % (2 * m);
    if r < m { DivMod(size, m, 2 * q, r); } else { DivMod(size, m, 2 * q + 1, r - m); }
  }

  lemma IndexDoubles(index: nat, w: Width)
    requires w < 3
    ensures index * ByteWidth(w + 1) == 2 * (index * ByteWidth(w))
  {
  }

  /** What fits a width also fits the next, although offsets grow with the width. */
  lemma NextWidthFits(size: nat, index: nat, at: nat, w: Width)
    requires w < 3 && at <= size && Place(size, index, w) - at < Range(w)
    ensures Place(size, index, w) <= Place(size, index, w + 1)
    ensures Place(size, index, w + 1) - at < Range(w + 1)
  {
    hide PaddingBytes;
    PaddingGrows(size, w);
    IndexDoubles(index, w);
    var place, next := Place(size, index, w), Place(size, index, w + 1);
    assert next - at <= 2 * (place - at) + ByteWidth(w);
    assert 2 * Range(w) + 8 <= Range(w + 1);
  }

  lemma {:induction false} WiderFits(size: nat, index: nat, at: nat, w: Width, wide: Width)
    requires w <= wide && at <= size && Place(size, index, w) - at < Range(w)
    ensures Place(size, index, wide) - at < Range(wide)
    decreases wide - w
  {
    if w < wide {
      NextWidthFits(size, index, at, w);
      WiderFits(size, index, at, w + 1, wide);
    }
  }

  lemma PlaceBelow(size: nat, index: nat, w: Width)
    ensures Place(size, index, w) < size + 8 + 8 * index
  {
  }

  /** Up to three header numbers and `n` elements end here. */
  lemma AtLeadPlus(size: nat, lead: nat, n: nat, w: Width)
    requires lead <= 3
    ensures Place(size, lead + n, w) <= size + 8 * n + 32
    ensures Place(size, lead, w) <= size + 32
  {
    PlaceBelow(size, lead + n, w);
    PlaceBelow(size, lead, w);
  }

  lemma PlacesGrow(size: nat, index: nat, w: Width)
    requires w < 3
    ensures Place(size, index, w) <= Place(size, index, w + 1)
  {
    hide PaddingBytes;
    PaddingGrows(size, w);
    IndexDoubles(index, w);
  }

  /** The value fits where it is to be stored. */
  predicate Fits(v: Value, size: nat, index: nat, w: Width) {
    match v
    case Int(i) => -(Range(w) as int) <= 2 * i < Range(w)
    case UInt(u) => u < Range(w)
    case Ref(at, _, _) => at <= size && Place(size, index, w) - at < Range(w)
  }

  lemma FitsWider(v: Value, size: nat, index: nat, w: Width, wide: Width)
    requires Fits(v, size, index, w) && w <= wide
    ensures Fits(v, size, index, wide)
  {
    if v.Ref? { WiderFits(size, index, v.at, w, wide); }
  }

  /** An element that comes earlier than was reckoned with is nearer to what it refers to. */
  lemma FitsEarlier(v: Value, size: nat, index: nat, early: nat, w: Width)
    requires Fits(v, size, index, w) && early <= index
    ensures Fits(v, size, early, w)
  {
  }

  /** ElemWidth (flatbuffers/flexbuffers.h:1520-1547): the least width that fits is found
      before the loop runs out of widths. */
  method ElemWidth(v: Value, bufSize: nat, elemIndex: nat) returns (w: Width)
    requires InLimits(v, bufSize) && bufSize + 8 + 8 * elemIndex < LIMIT
    ensures Fits(v, bufSize, elemIndex, w)
    ensures forall u: Width :: u < w ==> !Fits(v, bufSize, elemIndex, u)
  {
    hide Place;
    w := 3;
    if !v.Ref? { return MinBitWidth(v); }
    var byteWidth: nat := 0;
    while byteWidth <= 3
      invariant byteWidth <= 3 && WidthU(Place(bufSize, elemIndex, byteWidth) - v.at) >= byteWidth
      invariant forall u: Width :: u < byteWidth ==> !Fits(v, bufSize, elemIndex, u)
      decreases 3 - byteWidth
    {
      var offset := Place(bufSize, elemIndex, byteWidth) - v.at;
      PlaceBelow(bufSize, elemIndex, byteWidth);
      var bitWidth := WidthU(offset);
      if bitWidth == byteWidth { return bitWidth; }
      PlacesGrow(bufSize, elemIndex, byteWidth);
      byteWidth := byteWidth + 1;
    }
    assert false;
  }

  // ---------------------------------------------------------------- reading back

  /** A number of width `w` at `p`. */
  function ReadU(buf: seq<byte>, p: nat, w: Width): (n: nat)
    requires p + ByteWidth(w) <= |buf|
  {
    FromLE(buf[p..p + ByteWidth(w)])
  }

  /** The reader's sign extension (ReadInt64, flatbuffers/flexbuffers.h:149-152). */
  function Extend(n: nat, w: Width): (i: int) {
    if 2 * n < Range(w) then n else n - Range(w)
  }

  /** An element read back: the integer, or the place that is referred to. */
  predicate Holds(buf: seq<byte>, p: nat, w: Width, v: Value) {
    && p + ByteWidth(w) <= |buf|
    && match v
       case Int(i) => Extend(ReadU(buf, p, w), w) == i
       case UInt(u) => ReadU(buf, p, w) == u
       case Ref(at, _, _) => p - ReadU(buf, p, w) == at
  }

  /** The low bytes of a value, as WriteAny keeps them. */
  function Kept(v: Value, p: nat, w: Width): (n: nat)
    requires v.Ref? ==> v.at <= p
  {
    match v
    case Int(i) => if i >= 0 then i % Range(w) else (i + LIMIT) % Range(w)
    case UInt(u) => u % Range(w)
    case Ref(at, _, _) => (p - at) % Range(w)
  }

  lemma KeptFits(v: Value, size: nat, index: nat, w: Width)
    requires Fits(v, size, index, w)
    ensures var p := Place(size, index, w);
            var n := Kept(v, p, w);
            match v
            case Int(i) => Extend(n, w) == i
            case UInt(u) => n == u
            case Ref(at, _, _) => p - n == at
  {
    var r, q := Range(w), Wraps(w);
    RangeDivides(w);
    hide Range, Wraps;
    match v {
      case Int(i) => if i >= 0 { DivMod(i, r, 0, i); } else { DivMod(i + LIMIT, r, q - 1, i + r); }
      case UInt(u) => DivMod(u, r, 0, u);
      case Ref(at, _, _) => DivMod(Place(size, index, w) - at, r, 0, Place(size, index, w) - at);
    }
  }

  function Wraps(w: Width): (n: nat) {
    if w == 0 then 0x100_0000_0000_0000 else if w == 1 then 0x1_0000_0000_0000 else if w == 2 then 0x1_0000_0000 else 1
  }

  lemma RangeDivides(w: Width)
    ensures LIMIT == Wraps(w) * Range(w) && Range(w) >= 0x100
  {
  }

  lemma HoldsAppended(buf: seq<byte>, v: Value, size: nat, index: nat, w: Width, more: seq<byte>)
    requires Fits(v, size, index, w) && |buf| == Place(size, index, w)
    ensures Holds(buf + LE(Kept(v, |buf|, w), ByteWidth(w)) + more, |buf|, w, v)
  {
    hide LE, FromLE, Kept;
    KeptFits(v, size, index, w);
    RangeIsPow256(w);
    KeptBelow(v, |buf|, w);
    FromLEInvertsLE(Kept(v, |buf|, w), ByteWidth(w));
    var d := buf + LE(Kept(v, |buf|, w), ByteWidth(w)) + more;
    assert d[|buf|..|buf| + ByteWidth(w)] == LE(Kept(v, |buf|, w), ByteWidth(w));
  }

  lemma KeptBelow(v: Value, p: nat, w: Width)
    requires v.Ref? ==> v.at <= p
    ensures Kept(v, p, w) < Range(w)
  {
  }

  lemma HoldsStill(buf: seq<byte>, p: nat, w: Width, v: Value, more: seq<byte>)
    requires Holds(buf, p, w, v)
    ensures Holds(buf + more, p, w, v)
  {
    assert (buf + more)[p..p + ByteWidth(w)] == buf[p..p + ByteWidth(w)];
  }

  // ---------------------------------------------------------------- the builder

  // FBT_INT, FBT_UINT, FBT_KEY, FBT_MAP, FBT_VECTOR (flatbuffers/flexbuffers.h:52-65)
  const KEY: nat := 4
  const MAP: nat := 9
  const VECTOR: nat := 10

  function TypeCode(v: Value): nat {
    match v
    case Int(_) => 1
    case UInt(_) => 2
    case Ref(_, kind, _) => kind
  }

  /** StoredPackedType (flatbuffers/flexbuffers.h:1516-1518, 1549-1555, 862-864). */
  function PackedType(v: Value, parent: Width): (b: byte)
    requires Sound(v)
  {
    (if v.Ref? then v.width else Max(MinBitWidth(v), parent)) + 4 * TypeCode(v)
  }

  /** The elements of a vector: every `step`-th value of the stack. */
  function Count(n: nat, step: nat): nat
    requires step > 0
  {
    (n + step - 1) / step
  }

  predicate Visits(stackSize: nat, start: nat, step: nat, len: nat) {
    (step == 1 || step == 2) && len == if start < stackSize then Count(stackSize - start, step) else 0
  }

  lemma Visited(stackSize: nat, start: nat, step: nat, len: nat, j: nat)
    requires Visits(stackSize, start, step, len)
    ensures j < len <==> start + j * step < stackSize
    ensures start + (j + 1) * step == start + j * step + step
  {
  }

  /** Element `k` of the vector. */
  function Elem(stack: seq<Value>, start: nat, step: nat, k: nat): (v: Value)
    requires start + k * step < |stack|
  {
    stack[start + k * step]
  }

  /** The first `n` elements fit width `w`, each as far on as was reckoned with. */
  predicate ElemsFit(stack: seq<Value>, size: nat, start: nat, step: nat, prefix: nat, n: nat, w: Width) {
    forall k :: 0 <= k < n ==> start + k * step < |stack| && Fits(Elem(stack, start, step, k), size, k * step + prefix, w)
  }

  lemma ElemsFitWider(stack: seq<Value>, size: nat, start: nat, step: nat, prefix: nat, n: nat, w: Width, wide: Width)
    requires ElemsFit(stack, size, start, step, prefix, n, w) && w <= wide
    ensures ElemsFit(stack, size, start, step, prefix, n, wide)
  {
    hide Fits, Elem;
    forall k | 0 <= k < n ensures start + k * step < |stack| && Fits(Elem(stack, start, step, k), size, k * step + prefix, wide) {
      FitsWider(Elem(stack, start, step, k), size, k * step + prefix, w, wide);
    }
  }

  /** A key and its NUL. */
  predicate KeyAt(buf: seq<byte>, at: int, key: seq<byte>) {
    0 <= at && at + |key| < |buf| && buf[at..at + |key|] == key && buf[at + |key|] == 0 && 0 !in key
  }

  lemma KeyBelow(b: seq<byte>, buf: seq<byte>, at: int, key: seq<byte>)
    requires b <= buf && KeyAt(b, at, key)
    ensures KeyAt(buf, at, key)
  {
    assert buf[at..at + |key|] == b[at..at + |key|];
  }

  lemma KeyWritten(b: seq<byte>, key: seq<byte>)
    requires 0 !in key
    ensures KeyAt(b + key + [0], |b|, key)
  {
  }

  lemma KeyInside(buf: seq<byte>, at: int, key: seq<byte>)
    requires KeyAt(buf, at, key)
    ensures 0 <= at < |buf|
  {
  }

  lemma PoolBelow(b: seq<byte>, buf: seq<byte>, keyPool: map<seq<byte>, nat>)
    requires b <= buf && forall key :: key in keyPool ==> KeyAt(b, keyPool[key], key)
    ensures forall key :: key in keyPool ==> KeyAt(buf, keyPool[key], key)
  {
    hide KeyAt;
    forall key | key in keyPool ensures KeyAt(buf, keyPool[key], key) { KeyBelow(b, buf, keyPool[key], key); }
  }

  /** The end of a finished buffer: the root at width `w`, its type, and the width. */
  predicate Finished(buf: seq<byte>, root: Value, w: Width) {
    && |buf| >= ByteWidth(w) + 2 && Sound(root)
    && buf[|buf| - 1] == ByteWidth(w) && buf[|buf| - 2] == PackedType(root, 0)
    && Holds(buf, |buf| - 2 - ByteWidth(w), w, root)
  }

  /** The length, the way to the keys and the first `n` elements fit width `w`. */
  predicate AllFit(vecLen: nat, keys: Option<Value>, stack: seq<Value>, size: nat, start: nat, step: nat, n: nat, w: Width) {
    && vecLen < Range(w) && (keys.Some? ==> Fits(keys.value, size, 0, w))
    && ElemsFit(stack, size, start, step, if keys.Some? then 3 else 1, n, w)
  }

  /** The first `n` elements do not all fit a width from `low` on and below `w`. */
  predicate NoneFits(stack: seq<Value>, size: nat, start: nat, step: nat, prefix: nat, n: nat, low: Width, w: Width) {
    forall u: Width :: low <= u < w ==> !ElemsFit(stack, size, start, step, prefix, n, u)
  }

  /** No width from `low` on and below `w` would do for the first `n` elements. */
  predicate LeastWidth(vecLen: nat, keys: Option<Value>, stack: seq<Value>, size: nat, start: nat, step: nat, n: nat,
                       low: Width, w: Width)
  {
    forall u: Width :: low <= u < w ==> !AllFit(vecLen, keys, stack, size, start, step, n, u)
  }

  lemma LeastStep(vecLen: nat, keys: Option<Value>, stack: seq<Value>, size: nat, start: nat, step: nat, n: nat, m: nat,
                  low: Width, w0: Width, w: Width)
    requires m == n + 1 && low <= w0 <= w
    requires LeastWidth(vecLen, keys, stack, size, start, step, n, low, w0)
    requires NoneFits(stack, size, start, step, if keys.Some? then 3 else 1, m, w0, w)
    ensures LeastWidth(vecLen, keys, stack, size, start, step, m, low, w)
  {
    hide Fits, Range;
    forall u: Width | low <= u < w ensures !AllFit(vecLen, keys, stack, size, start, step, m, u) {
      if u < w0 { assert !AllFit(vecLen, keys, stack, size, start, step, n, u); }
    }
  }

  class Builder {
    var buf: seq<byte>
    var stack: seq<Value>
    var forceMinBitWidth: Width
    /** The keys in the buffer that can be shared, and where they are. */
    const shareKeys: bool
    var keyPool: map<seq<byte>, nat>

    ghost predicate Valid()
      reads this
    {
      forall i :: 0 <= i < |stack| ==> InLimits(stack[i], |buf|)
    }

    ghost predicate PoolHolds()
      reads this
    {
      forall key :: key in keyPool ==> KeyAt(buf, keyPool[key], key)
    }

    constructor (shareKeys: bool, forceMinBitWidth: Width)
      ensures Valid() && PoolHolds() && buf == [] && stack == []
      ensures this.shareKeys == shareKeys && this.forceMinBitWidth == forceMinBitWidth
    {
      this.shareKeys, this.forceMinBitWidth := shareKeys, forceMinBitWidth;
      buf, stack, keyPool := [], [], map[];
    }

    /** Int and UInt (flatbuffers/flexbuffers.h:1008, 1014). */
    method Push(v: Value)
      requires Valid() && !v.Ref? && Sound(v)
      modifies this`stack
      ensures Valid() && stack == old(stack) + [v]
    {
      stack := stack + [v];
    }

    /** Key (flatbuffers/flexbuffers.h:1068-1084): the bytes and a NUL, unless the same key is
        there already and keys are shared. */
    method Key(key: seq<byte>) returns (at: nat)
      requires Valid() && PoolHolds() && 0 !in key
      modifies this`buf, this`stack, this`keyPool
      ensures Valid() && PoolHolds() && old(buf) <= buf && stack == old(stack) + [Ref(at, KEY, 0)] && KeyAt(buf, at, key)
      ensures shareKeys && key in old(keyPool) ==> buf == old(buf)
      ensures |buf| <= |old(buf)| + |key| + 1
    {
      hide KeyAt;
      at := |buf|;
      ghost var b := buf;
      buf := buf + key + [0];
      KeyWritten(b, key);
      if shareKeys {
        if key in keyPool {
          buf := buf[..at];
          assert buf == b;
          at := keyPool[key];
          KeyInside(buf, at, key);
        } else {
          PoolBelow(b, buf, keyPool);
          keyPool := keyPool[key := at];
        }
      } else {
        PoolBelow(b, buf, keyPool);
      }
      stack := stack + [Ref(at, KEY, 0)];
    }

    /** Finish (flatbuffers/flexbuffers.h:1398-1414): the root, its type and its width. */
    method Finish() returns (w: Width)
      requires Valid() && |stack| == 1 && |buf| + 8 < LIMIT
      modifies this`buf
      ensures old(buf) <= buf && Finished(buf, stack[0], w)
    {
      hide Holds, Fits, Place;
      w := ElemWidth(stack[0], |buf|, 0);
      ghost var size := |buf|;
      Align(w);
      ghost var at := |buf|;
      WriteAny(stack[0], w, size, 0);
      PlaceAdd(size, 0, 1, w);
      ghost var b := buf;
      buf := buf + [PackedType(stack[0], 0)];
      buf := buf + [ByteWidth(w)];
      HoldsIn(b, buf, at, w, stack[0]);
    }

    /** Align (flatbuffers/flexbuffers.h:1425-1430). */
    method Align(w: Width)
      modifies this`buf
      ensures |buf| == Place(|old(buf)|, 0, w) && old(buf) <= buf
    {
      buf := buf + seq(PaddingBytes(|buf|, ByteWidth(w)), _ => 0);
    }

    /** WriteAny (flatbuffers/flexbuffers.h:1559-1568), Write and WriteOffset. */
    method WriteAny(v: Value, w: Width, ghost size: nat, ghost index: nat)
      requires |buf| == Place(size, index, w) && Fits(v, size, index, w)
      modifies this`buf
      ensures old(buf) <= buf && |buf| == Place(size, index + 1, w)
      ensures Holds(buf, |old(buf)|, w, v)
    {
      hide LE, FromLE, Kept, Holds;
      // the offset is in range (flatbuffers/flexbuffers.h:1455)
      assert v.Ref? ==> |buf| - v.at < Range(w);
      HoldsAppended(buf, v, size, index, w, []);
      var bytes := LE(Kept(v, |buf|, w), ByteWidth(w));
      assert buf + bytes + [] == buf + bytes;
      buf := buf + bytes;
    }

    /** The width for all elements (flatbuffers/flexbuffers.h:1607-1630). */
    method ChooseWidth(start: nat, vecLen: nat, step: nat, keys: Option<Value>) returns (w: Width)
      requires Valid() && Visits(|stack|, start, step, vecLen) && |buf| + 8 * |stack| + 64 < LIMIT
      requires keys.Some? ==> InLimits(keys.value, |buf|)
      ensures forceMinBitWidth <= w && vecLen < Range(w)
      ensures keys.Some? ==> Fits(keys.value, |buf|, 0, w)
      ensures ElemsFit(stack, |buf|, start, step, if keys.Some? then 3 else 1, vecLen, w)
      ensures LeastWidth(vecLen, keys, stack, |buf|, start, step, vecLen, forceMinBitWidth, w)
    {
      hide Fits, ElemsFit, Range, Place, NoneFits;
      w := Max(forceMinBitWidth, WidthU(vecLen));
      RangeGrows(WidthU(vecLen), w);
      var prefix := 1;
      if keys.Some? {
        var keyWidth := ElemWidth(keys.value, |buf|, 0);
        ghost var before := w;
        w := Max(w, keyWidth);
        RangeGrows(before, w);
        FitsWider(keys.value, |buf|, 0, keyWidth, w);
        prefix := prefix + 2;
      }
      NoneFit(stack, |buf|, start, step, prefix, w);
      var i := start;
      ghost var j := 0;
      while i < |stack|
        invariant i == start + j * step && j <= vecLen && forceMinBitWidth <= w && vecLen < Range(w)
        invariant keys.Some? ==> Fits(keys.value, |buf|, 0, w)
        invariant ElemsFit(stack, |buf|, start, step, prefix, j, w) && prefix == if keys.Some? then 3 else 1
        invariant LeastWidth(vecLen, keys, stack, |buf|, start, step, j, forceMinBitWidth, w)
        decreases |stack| - i
      {
        Visited(|stack|, start, step, vecLen, j);
        ghost var before := w;
        w := Widen(w, i, start, step, prefix, j, keys);
        LeastStep(vecLen, keys, stack, |buf|, start, step, j, j + 1, forceMinBitWidth, before, w);
        i, j := i + step, j + 1;
      }
      Visited(|stack|, start, step, vecLen, j);
    }

    lemma NoneFit(stack: seq<Value>, size: nat, start: nat, step: nat, prefix: nat, w: Width)
      ensures ElemsFit(stack, size, start, step, prefix, 0, w)
    {
    }

    /** One element more to fit. */
    method Widen(before: Width, i: nat, start: nat, step: nat, prefix: nat, ghost j: nat, keys: Option<Value>) returns (w: Width)
      requires Valid() && i == start + j * step < |stack| && |buf| + 8 * |stack| + 64 < LIMIT && prefix <= 3
      requires ElemsFit(stack, |buf|, start, step, prefix, j, before)
      requires keys.Some? ==> Fits(keys.value, |buf|, 0, before)
      ensures before <= w && Range(before) <= Range(w) && (keys.Some? ==> Fits(keys.value, |buf|, 0, w))
      ensures ElemsFit(stack, |buf|, start, step, prefix, j + 1, w)
      ensures NoneFits(stack, |buf|, start, step, prefix, j + 1, before, w)
    {
      hide Fits, Range, Place;
      var elemWidth := ElemWidth(stack[i], |buf|, i - start + prefix);
      w := Max(before, elemWidth);
      RangeGrows(before, w);
      if keys.Some? { FitsWider(keys.value, |buf|, 0, before, w); }
      FitsWider(stack[i], |buf|, i - start + prefix, elemWidth, w);
      ElemsFitWider(stack, |buf|, start, step, prefix, j, before, w);
    }

    /** The map's keys and their width, and the length (flatbuffers/flexbuffers.h:1636-1640). */
    method WriteHeader(vecLen: nat, fixed: bool, keys: Option<Value>, w: Width, ghost size: nat) returns (ghost lead: nat)
      requires |buf| == Place(size, 0, w) && vecLen < Range(w)
      requires keys.Some? ==> keys.value.Ref? && Fits(keys.value, size, 0, w)
      modifies this`buf
      ensures old(buf) <= buf && lead == Lead(fixed, keys) && |buf| == Place(size, lead, w)
      ensures HeaderHolds(buf, |buf|, w, vecLen, fixed, keys)
    {
      hide Holds, Fits, Place;
      lead := 0;
      SmallNumbers(size, w, vecLen, if keys.Some? then ByteWidth(keys.value.width) else 0);
      if keys.Some? {
        WriteAny(keys.value, w, size, 0);
        ghost var b := buf;
        WriteAny(UInt(ByteWidth(keys.value.width)), w, size, 1);
        HoldsIn(b, buf, Place(size, 0, w), w, keys.value);
        lead := 2;
      }
      ghost var b := buf;
      if !fixed {
        WriteAny(UInt(vecLen), w, size, lead);
        lead := lead + 1;
      }
      if keys.Some? {
        HoldsIn(b, buf, Place(size, 0, w), w, keys.value);
        HoldsIn(b, buf, Place(size, 1, w), w, UInt(ByteWidth(keys.value.width)));
      }
      PlaceAdd(size, 0, lead, w);
      PlaceAdd(size, 0, 1, w);
      if lead > 0 { PlaceAdd(size, 0, lead - 1, w); }
    }

    /** The elements (flatbuffers/flexbuffers.h:1643-1645). */
    method WriteElems(start: nat, step: nat, ghost vecLen: nat, w: Width, ghost size: nat, ghost lead: nat, ghost prefix: nat)
      requires Visits(|stack|, start, step, vecLen) && lead <= prefix && |buf| == Place(size, lead, w)
      requires ElemsFit(stack, size, start, step, prefix, vecLen, w)
      modifies this`buf
      ensures old(buf) <= buf && |buf| == Place(size, lead + vecLen, w)
      ensures ElemsHold(buf, |old(buf)|, w, stack, start, step, vecLen)
    {
      hide Holds, Fits, Place;
      var i := start;
      ghost var j := 0;
      while i < |stack|
        invariant i == start + j * step && j <= vecLen && old(buf) <= buf && |buf| == Place(size, lead + j, w)
        invariant ElemsHold(buf, |old(buf)|, w, stack, start, step, j)
        decreases |stack| - i
      {
        Visited(|stack|, start, step, vecLen, j);
        assert stack[i] == Elem(stack, start, step, j);
        ElemEarlier(stack[i], size, j, step, prefix, lead, w);
        ghost var b := buf;
        WriteAny(stack[i], w, size, lead + j);
        OneMoreHolds(b, buf, |old(buf)|, w, stack, start, step, j, size, lead);
        i, j := i + step, j + 1;
      }
      Visited(|stack|, start, step, vecLen, j);
    }

    /** The type table (flatbuffers/flexbuffers.h:1647-1651). */
    method WriteTypes(start: nat, step: nat, ghost vecLen: nat, w: Width)
      requires Visits(|stack|, start, step, vecLen) && forall i :: 0 <= i < |stack| ==> Sound(stack[i])
      modifies this`buf
      ensures |buf| == |old(buf)| + vecLen && old(buf) <= buf
      ensures TypesHold(buf, |old(buf)|, w, stack, start, step, vecLen)
    {
      hide PackedType, Sound;
      var i := start;
      ghost var j := 0;
      while i < |stack|
        invariant i == start + j * step && j <= vecLen && old(buf) <= buf && |buf| == |old(buf)| + j
        invariant TypesHold(buf, |old(buf)|, w, stack, start, step, j)
        decreases |stack| - i
      {
        Visited(|stack|, start, step, vecLen, j);
        assert stack[i] == Elem(stack, start, step, j);
        ghost var b := buf;
        buf := buf + [PackedType(stack[i], w)];
        TypesBelow(b, buf, |old(buf)|, w, stack, start, step, j);
        i, j := i + step, j + 1;
      }
      Visited(|stack|, start, step, vecLen, j);
    }

    /** CreateVector (flatbuffers/flexbuffers.h:1601-1657). The width that was chosen
        beforehand holds everything that is then written: the length, the way to the keys,
        each element and each way to an element, in typed, untyped and map vectors. */
    method CreateVector(start: nat, vecLen: nat, step: nat, typed: bool, fixed: bool, keys: Option<Value>)
      returns (v: Value)
      requires Valid() && Visits(|stack|, start, step, vecLen) && |buf| + 8 * |stack| + 64 < LIMIT
      requires keys.Some? ==> keys.value.Ref? && InLimits(keys.value, |buf|) && !typed
      requires typed ==> vecLen == 0 || TypeCode(stack[start]) <= 5
      requires typed && fixed ==> vecLen == 0 || 2 <= vecLen <= 4
      modifies this`buf
      ensures old(buf) <= buf && |buf| <= |old(buf)| + 9 * vecLen + 40
      ensures v.Ref? && InLimits(v, |buf|) && forceMinBitWidth <= v.width && v.kind == VectorKind(stack, start, vecLen, typed, fixed, keys)
      ensures VectorHolds(buf, v, stack, start, step, vecLen, typed, fixed, keys)
      ensures LeastWidth(vecLen, keys, stack, |old(buf)|, start, step, vecLen, forceMinBitWidth, v.width)
    {
      hide LeastWidth, ElemsFit, ElemsHold, HeaderHolds, TypesHold, Fits, Place, PackedType, Elem;
      ghost var size := |buf|;
      var w := ChooseWidth(start, vecLen, step, keys);
      Align(w);
      ghost var lead := WriteHeader(vecLen, fixed, keys, w, size);
      var vloc := |buf|;
      ghost var b := buf;
      WriteElems(start, step, vecLen, w, size, lead, if keys.Some? then 3 else 1);
      ghost var c := buf;
      AtLeadPlus(size, lead, vecLen, w);
      PlaceAdd(size, lead, vecLen, w);
      if !typed { WriteTypes(start, step, vecLen, w); }
      HeaderBelow(b, buf, vloc, w, vecLen, fixed, keys);
      ElemsBelow(c, buf, vloc, w, stack, start, step, vecLen);
      Visited(|stack|, start, step, vecLen, 0);
      v := Ref(vloc, VectorKind(stack, start, vecLen, typed, fixed, keys), w);
    }

    /** EndVector (flatbuffers/flexbuffers.h:1161-1167): the vector takes its elements' place. */
    method EndVector(start: nat, typed: bool, fixed: bool) returns (v: Value)
      requires Valid() && start <= |stack| && |buf| + 8 * |stack| + 64 < LIMIT
      requires typed ==> start == |stack| || TypeCode(stack[start]) <= 5
      requires typed && fixed ==> |stack| == start || 2 <= |stack| - start <= 4
      modifies this`buf, this`stack
      ensures Valid() && stack == old(stack)[..start] + [v] && old(buf) <= buf
      ensures VectorHolds(buf, v, old(stack), start, 1, |old(stack)| - start, typed, fixed, None)
      ensures v.Ref? && v.kind == VectorKind(old(stack), start, |old(stack)| - start, typed, fixed, None)
      ensures var n := |old(stack)| - start; LeastWidth(n, None, old(stack), |old(buf)|, start, 1, n, forceMinBitWidth, v.width)
      ensures |buf| <= |old(buf)| + 9 * (|old(stack)| - start) + 40
    {
      hide VectorHolds, LeastWidth;
      v := CreateVector(start, |stack| - start, 1, typed, fixed, None);
      stack := stack[..start];
      stack := stack + [v];
    }

    /** EndMap (flatbuffers/flexbuffers.h:1169-1218) once its pairs are in order: a vector of
        the keys, then a vector of the values that leads to it. */
    method EndMap(start: nat) returns (v: Value, keys: Value)
      requires Valid() && start <= |stack| && (|stack| - start) % 2 == 0 && |buf| + 24 * |stack| + 200 < LIMIT
      requires forall i :: start <= i < |stack| && (i - start) % 2 == 0 ==> stack[i].Ref? && stack[i].kind == KEY
      modifies this`buf, this`stack
      ensures Valid() && stack == old(stack)[..start] + [v] && old(buf) <= buf
      ensures var len := (|old(stack)| - start) / 2;
              && VectorHolds(buf, v, old(stack), start + 1, 2, len, false, false, Some(keys))
              && VectorHolds(buf, keys, old(stack), start, 2, len, true, false, None) && v.Ref? && v.kind == MAP
              && |buf| <= |old(buf)| + 18 * len + 80
    {
      hide VectorHolds, LeastWidth;
      var len := (|stack| - start) / 2;
      assert len > 0 ==> stack[start].kind == KEY;
      keys := CreateVector(start, len, 2, true, false, None);
      ghost var b := buf;
      v := CreateVector(start + 1, len, 2, false, false, Some(keys));
      VectorBelow(b, buf, keys, stack, start, 2, len, true, false, None);
      stack := stack[..start];
      stack := stack + [v];
    }
  }

  /** What kind of vector it is. */
  function VectorKind(stack: seq<Value>, start: nat, vecLen: nat, typed: bool, fixed: bool, keys: Option<Value>): (kind: nat)
    requires typed ==> start >= |stack| || 1 <= TypeCode(stack[start])
    requires typed && fixed ==> vecLen == 0 || 2 <= vecLen <= 4
  {
    if keys.Some? then MAP
    else if typed then ToTypedVector(if start < |stack| then TypeCode(stack[start]) else KEY, if fixed then vecLen else 0)
    else VECTOR
  }

  /** ToTypedVector (flatbuffers/flexbuffers.h:104-113). */
  function ToTypedVector(t: nat, fixedLen: nat): (kind: nat)
    requires 1 <= t && (fixedLen == 0 || 2 <= fixedLen <= 4)
    ensures t <= 5 ==> 4 <= kind < 64
  {
    if fixedLen == 0 then t - 1 + 11
    else if fixedLen == 2 then t - 1 + 16
    else if fixedLen == 3 then t - 1 + 19
    else t - 1 + 22
  }

  lemma HeaderBelow(b: seq<byte>, buf: seq<byte>, at: nat, w: Width, vecLen: nat, fixed: bool, keys: Option<Value>)
    requires b <= buf && HeaderHolds(b, at, w, vecLen, fixed, keys)
    ensures HeaderHolds(buf, at, w, vecLen, fixed, keys)
  {
    hide Holds, ByteWidth;
    if !fixed { HoldsIn(b, buf, at - ByteWidth(w), w, UInt(vecLen)); }
    if keys.Some? {
      HoldsIn(b, buf, at - Lead(fixed, keys) * ByteWidth(w), w, keys.value);
      HoldsIn(b, buf, at - (Lead(fixed, keys) - 1) * ByteWidth(w), w, UInt(ByteWidth(keys.value.width)));
    }
  }

  lemma ElemsBelow(b: seq<byte>, buf: seq<byte>, at: nat, w: Width, stack: seq<Value>, start: nat, step: nat, n: nat)
    requires b <= buf && ElemsHold(b, at, w, stack, start, step, n)
    ensures ElemsHold(buf, at, w, stack, start, step, n)
  {
    hide Holds, ByteWidth, Elem;
    forall k | 0 <= k < n ensures start + k * step < |stack| && Holds(buf, at + k * ByteWidth(w), w, Elem(stack, start, step, k)) {
      HoldsIn(b, buf, at + k * ByteWidth(w), w, Elem(stack, start, step, k));
    }
  }

  /** What is appended later leaves a vector as it is. */
  lemma VectorBelow(b: seq<byte>, buf: seq<byte>, v: Value, stack: seq<Value>, start: nat, step: nat, vecLen: nat,
                    typed: bool, fixed: bool, keys: Option<Value>)
    requires b <= buf && VectorHolds(b, v, stack, start, step, vecLen, typed, fixed, keys)
    ensures VectorHolds(buf, v, stack, start, step, vecLen, typed, fixed, keys)
  {
    hide HeaderHolds, ElemsHold, TypesHold, Elem, PackedType;
    HeaderBelow(b, buf, v.at, v.width, vecLen, fixed, keys);
    ElemsBelow(b, buf, v.at, v.width, stack, start, step, vecLen);
    if !typed { TypesBelow(b, buf, v.at + vecLen * ByteWidth(v.width), v.width, stack, start, step, vecLen); }
  }

  lemma TypesBelow(b: seq<byte>, buf: seq<byte>, at: nat, w: Width, stack: seq<Value>, start: nat, step: nat, n: nat)
    requires b <= buf && TypesHold(b, at, w, stack, start, step, n)
    ensures TypesHold(buf, at, w, stack, start, step, n)
  {
    hide PackedType, Sound, Elem;
    forall k | 0 <= k < n ensures TypeHolds(buf, at, w, stack, start, step, k) {
      assert TypeHolds(b, at, w, stack, start, step, k);
    }
  }

  /** A finished vector, read back at its own width. */
  predicate VectorHolds(buf: seq<byte>, v: Value, stack: seq<Value>, start: nat, step: nat, vecLen: nat,
                        typed: bool, fixed: bool, keys: Option<Value>)
  {
    && v.Ref? && HeaderHolds(buf, v.at, v.width, vecLen, fixed, keys)
    && ElemsHold(buf, v.at, v.width, stack, start, step, vecLen)
    && (!typed ==> TypesHold(buf, v.at + vecLen * ByteWidth(v.width), v.width, stack, start, step, vecLen))
  }

  predicate TypesHold(buf: seq<byte>, at: nat, w: Width, stack: seq<Value>, start: nat, step: nat, n: nat) {
    forall k :: 0 <= k < n ==> TypeHolds(buf, at, w, stack, start, step, k)
  }

  predicate TypeHolds(buf: seq<byte>, at: nat, w: Width, stack: seq<Value>, start: nat, step: nat, k: nat) {
    && start + k * step < |stack| && at + k < |buf| && Sound(Elem(stack, start, step, k))
    && buf[at + k] == PackedType(Elem(stack, start, step, k), w)
  }

  /** How many elements' room precedes the first. */
  function Lead(fixed: bool, keys: Option<Value>): nat {
    (if keys.Some? then 2 else 0) + (if fixed then 0 else 1)
  }

  /** Length, and keys of a map, in front of a vector at `at`. */
  predicate HeaderHolds(buf: seq<byte>, at: nat, w: Width, vecLen: nat, fixed: bool, keys: Option<Value>) {
    && at >= Lead(fixed, keys) * ByteWidth(w)
    && (!fixed ==> Holds(buf, at - ByteWidth(w), w, UInt(vecLen)))
    && (keys.Some? ==>
          && keys.value.Ref?
          && Holds(buf, at - Lead(fixed, keys) * ByteWidth(w), w, keys.value)
          && Holds(buf, at - (Lead(fixed, keys) - 1) * ByteWidth(w), w, UInt(ByteWidth(keys.value.width))))
  }

  predicate ElemsHold(buf: seq<byte>, at: nat, w: Width, stack: seq<Value>, start: nat, step: nat, n: nat) {
    forall k :: 0 <= k < n ==> start + k * step < |stack| && Holds(buf, at + k * ByteWidth(w), w, Elem(stack, start, step, k))
  }

  lemma SmallNumbers(size: nat, w: Width, vecLen: nat, keyBytes: nat)
    requires vecLen < Range(w) && keyBytes <= 8
    ensures forall i :: Fits(UInt(vecLen), size, i, w) && Fits(UInt(keyBytes), size, i, w)
  {
  }

  lemma PlaceAdd(size: nat, lead: nat, j: nat, w: Width)
    ensures Place(size, lead + j, w) == Place(size, lead, w) + j * ByteWidth(w)
  {
    hide PaddingBytes;
    assert w == 0 || w == 1 || w == 2 || w == 3;
  }

  lemma HoldsIn(b: seq<byte>, buf: seq<byte>, p: nat, w: Width, v: Value)
    requires b <= buf && Holds(b, p, w, v)
    ensures Holds(buf, p, w, v)
  {
    HoldsStill(b, p, w, v, buf[|b|..]);
    assert b + buf[|b|..] == buf;
  }

  lemma ElemEarlier(v: Value, size: nat, j: nat, step: nat, prefix: nat, lead: nat, w: Width)
    requires Fits(v, size, j * step + prefix, w) && lead <= prefix && step >= 1
    ensures Fits(v, size, lead + j, w)
  {
    hide Fits;
    AtLeast(step, j);
    FitsEarlier(v, size, j * step + prefix, lead + j, w);
  }

  lemma OneMoreHolds(b: seq<byte>, buf: seq<byte>, at: nat, w: Width, stack: seq<Value>, start: nat, step: nat, j: nat, size: nat, lead: nat)
    requires b <= buf && ElemsHold(b, at, w, stack, start, step, j) && start + j * step < |stack|
    requires at == Place(size, lead, w) && |b| == Place(size, lead + j, w)
    requires Holds(buf, |b|, w, Elem(stack, start, step, j))
    ensures ElemsHold(buf, at, w, stack, start, step, j + 1)
  {
    hide Holds, Elem, Place, ByteWidth;
    PlaceAdd(size, lead, j, w);
    forall k | 0 <= k < j + 1 ensures start + k * step < |stack| && Holds(buf, at + k * ByteWidth(w), w, Elem(stack, start, step, k)) {
      if k < j { HoldsIn(b, buf, at + k * ByteWidth(w), w, Elem(stack, start, step, k)); }
    }
  }

  lemma RangeGrows(w: Width, wide: Width)
    requires w <= wide
    ensures Range(w) <= Range(wide)
  {
  }
}
