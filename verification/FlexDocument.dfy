/** Whole FlexBuffers documents: what any sequence of calls builds, nested vectors and maps
    included, is what the reader of flatbuffers/flexbuffers.h finds from the buffer's end. */
module FlexDocument {
  import opened Bytes
  import opened FlatFormat
  import opened FlexBuilder
  import opened Options

  // ---------------------------------------------------------------- what a document means

  /** A vector with a type table, one whose elements have one type, one of these without a
      length, or a map. */
  datatype Tree =
    | TInt(i: int)
    | TUInt(u: nat)
    | TKey(key: seq<byte>)
    | TVector(elems: seq<Tree>)
    | TTyped(elems: seq<Tree>)
    | TFixed(elems: seq<Tree>)
    | TMap(keys: seq<seq<byte>>, vals: seq<Tree>)

  // ---------------------------------------------------------------- the reader

  /** A length, offset or width of width `w` at `p`. */
  predicate NumberAt(buf: seq<byte>, p: int, w: Width, n: nat) {
    0 <= p && p + ByteWidth(w) <= |buf| && ReadU(buf, p, w) == n
  }

  /** Indirect (flatbuffers/flexbuffers.h:180-182). */
  function Indirect(buf: seq<byte>, p: int, w: Width): (at: int) {
    if 0 <= p && p + ByteWidth(w) <= |buf| then p - ReadU(buf, p, w) else -1
  }

  /** The reference at `p` with the width of what it is in, its type and its own width
      (Reference, flatbuffers/flexbuffers.h:409-413) reads as `tree`. */
  ghost predicate Reads(buf: seq<byte>, p: int, parent: Width, kind: nat, w: Width, tree: Tree)
    decreases tree, 1
  {
    match tree
    case TInt(i) => kind == 1 && 0 <= p && Holds(buf, p, parent, Int(i))
    case TUInt(u) => kind == 2 && 0 <= p && Holds(buf, p, parent, UInt(u))
    case _ => Thing(buf, Indirect(buf, p, parent), kind, w, tree)
  }

  /** What is at `at`: a key, or a vector or map with elements of width `w`
      (flatbuffers/flexbuffers.h:273-351, 666-710, 875-894). */
  ghost predicate Thing(buf: seq<byte>, at: int, kind: nat, w: Width, tree: Tree)
    decreases tree, 0
  {
    0 <= at &&
    match tree
    case TInt(_) => false
    case TUInt(_) => false
    case TKey(key) => kind == KEY && KeyAt(buf, at, key)
    case TVector(elems) =>
      && kind == VECTOR && NumberAt(buf, at - ByteWidth(w), w, |elems|)
      && forall k :: 0 <= k < |elems| ==> Element(buf, at, w, |elems|, k, elems[k])
    case TTyped(elems) =>
      && 11 <= kind <= 15 && NumberAt(buf, at - ByteWidth(w), w, |elems|)
      && forall k :: 0 <= k < |elems| ==> Reads(buf, at + k * ByteWidth(w), w, kind - 10, 0, elems[k])
    case TFixed(elems) =>
      && 16 <= kind <= 24 && (kind - 16) / 3 + 2 == |elems|
      && forall k :: 0 <= k < |elems| ==> Reads(buf, at + k * ByteWidth(w), w, (kind - 16) % 3 + 1, 0, elems[k])
    case TMap(keys, vals) =>
      && kind == MAP && NumberAt(buf, at - ByteWidth(w), w, |vals|)
      && (forall k :: 0 <= k < |vals| ==> Element(buf, at, w, |vals|, k, vals[k]))
      && |keys| == |vals| && MapKeys(buf, at, w, keys)
  }

  /** Element `k` of a vector of `n`, with its type from the table behind the elements. */
  ghost predicate Element(buf: seq<byte>, at: int, w: Width, n: nat, k: nat, tree: Tree)
    decreases tree, 2
  {
    var t := at + n * ByteWidth(w) + k;
    0 <= t < |buf| && Reads(buf, at + k * ByteWidth(w), w, buf[t] / 4, buf[t] % 4, tree)
  }

  /** A map's keys (Keys, flatbuffers/flexbuffers.h:344-351). */
  predicate KeysAt(buf: seq<byte>, at: int, kw: Width, keys: seq<seq<byte>>) {
    && NumberAt(buf, at - ByteWidth(kw), kw, |keys|)
    && forall k :: 0 <= k < |keys| ==> KeyAt(buf, Indirect(buf, at + k * ByteWidth(kw), kw), keys[k])
  }

  /** Where a map's keys are. */
  ghost predicate MapKeys(buf: seq<byte>, at: int, w: Width, keys: seq<seq<byte>>) {
    exists kw: Width ::
      && NumberAt(buf, at - 2 * ByteWidth(w), w, ByteWidth(kw))
      && KeysAt(buf, Indirect(buf, at - 3 * ByteWidth(w), w), kw, keys)
  }

  /** GetRoot (flatbuffers/flexbuffers.h:925-933). */
  ghost predicate RootReads(buf: seq<byte>, tree: Tree) {
    && |buf| >= 2
    && exists w: Width ::
         && buf[|buf| - 1] == ByteWidth(w)
         && Reads(buf, |buf| - 2 - ByteWidth(w), w, buf[|buf| - 2] / 4, buf[|buf| - 2] % 4, tree)
  }

  // ---------------------------------------------------------------- what is appended later changes nothing

  lemma NumberBelow(b: seq<byte>, buf: seq<byte>, p: int, w: Width)
    requires b <= buf && 0 <= p && p + ByteWidth(w) <= |b|
    ensures ReadU(buf, p, w) == ReadU(b, p, w) && Indirect(buf, p, w) == Indirect(b, p, w)
  {
    assert buf[p..p + ByteWidth(w)] == b[p..p + ByteWidth(w)];
  }

  lemma {:induction false} ReadsBelow(b: seq<byte>, buf: seq<byte>, p: int, parent: Width, kind: nat, w: Width, tree: Tree)
    requires b <= buf && Reads(b, p, parent, kind, w, tree)
    ensures Reads(buf, p, parent, kind, w, tree)
    decreases tree, 1
  {
    hide Thing, Holds, ReadU, ByteWidth;
    match tree {
      case TInt(i) => HoldsIn(b, buf, p, parent, Int(i));
      case TUInt(u) => HoldsIn(b, buf, p, parent, UInt(u));
      case _ =>
        ThingInside(b, Indirect(b, p, parent), kind, w, tree);
        NumberBelow(b, buf, p, parent);
        ThingBelow(b, buf, Indirect(b, p, parent), kind, w, tree);
    }
  }

  lemma ThingInside(buf: seq<byte>, at: int, kind: nat, w: Width, tree: Tree)
    requires Thing(buf, at, kind, w, tree)
    ensures 0 <= at
  {
  }

  lemma {:induction false} ThingBelow(b: seq<byte>, buf: seq<byte>, at: int, kind: nat, w: Width, tree: Tree)
    requires b <= buf && Thing(b, at, kind, w, tree)
    ensures Thing(buf, at, kind, w, tree)
    decreases tree, 0
  {
    hide Reads, Element, ReadU, ByteWidth, KeyAt, KeysAt, Indirect;
    match tree {
      case TInt(_) =>
      case TUInt(_) =>
      case TKey(key) => KeyBelow(b, buf, at, key);
      case TVector(elems) =>
        NumberBelow(b, buf, at - ByteWidth(w), w);
        ElementsBelow(b, buf, at, w, elems);
      case TTyped(elems) =>
        NumberBelow(b, buf, at - ByteWidth(w), w);
        forall k | 0 <= k < |elems| ensures Reads(buf, at + k * ByteWidth(w), w, kind - 10, 0, elems[k]) {
          ReadsBelow(b, buf, at + k * ByteWidth(w), w, kind - 10, 0, elems[k]);
        }
      case TFixed(elems) =>
        forall k | 0 <= k < |elems| ensures Reads(buf, at + k * ByteWidth(w), w, (kind - 16) % 3 + 1, 0, elems[k]) {
          ReadsBelow(b, buf, at + k * ByteWidth(w), w, (kind - 16) % 3 + 1, 0, elems[k]);
        }
      case TMap(keys, vals) =>
        NumberBelow(b, buf, at - ByteWidth(w), w);
        ElementsBelow(b, buf, at, w, vals);
        KeysBelow(b, buf, at, w, keys);
    }
  }

  lemma {:induction false} ElementsBelow(b: seq<byte>, buf: seq<byte>, at: int, w: Width, elems: seq<Tree>)
    requires b <= buf && forall k :: 0 <= k < |elems| ==> Element(b, at, w, |elems|, k, elems[k])
    ensures forall k :: 0 <= k < |elems| ==> Element(buf, at, w, |elems|, k, elems[k])
    decreases elems, 0
  {
    hide Reads, ByteWidth;
    forall k | 0 <= k < |elems| ensures Element(buf, at, w, |elems|, k, elems[k]) {
      assert Element(b, at, w, |elems|, k, elems[k]);
      var t := at + |elems| * ByteWidth(w) + k;
      ReadsBelow(b, buf, at + k * ByteWidth(w), w, b[t] / 4, b[t] % 4, elems[k]);
    }
  }

  lemma KeysBelow(b: seq<byte>, buf: seq<byte>, at: int, w: Width, keys: seq<seq<byte>>)
    requires b <= buf && MapKeys(b, at, w, keys)
    ensures MapKeys(buf, at, w, keys)
  {
    hide KeysAt, ReadU, Indirect, ByteWidth;
    var kw: Width :| NumberAt(b, at - 2 * ByteWidth(w), w, ByteWidth(kw))
                     && KeysAt(b, Indirect(b, at - 3 * ByteWidth(w), w), kw, keys);
    NumberBelow(b, buf, at - 2 * ByteWidth(w), w);
    KeysSame(b, buf, at, w, kw, keys);
  }

  lemma KeysSame(b: seq<byte>, buf: seq<byte>, at: int, w: Width, kw: Width, keys: seq<seq<byte>>)
    requires b <= buf && KeysAt(b, Indirect(b, at - 3 * ByteWidth(w), w), kw, keys)
    ensures KeysAt(buf, Indirect(buf, at - 3 * ByteWidth(w), w), kw, keys)
  {
    hide ReadU, ByteWidth, KeyAt;
    var p := at - 3 * ByteWidth(w);
    var from := Indirect(b, p, w);
    NumberBelow(b, buf, p, w);
    NumberBelow(b, buf, from - ByteWidth(kw), kw);
    forall k | 0 <= k < |keys| ensures KeyAt(buf, Indirect(buf, from + k * ByteWidth(kw), kw), keys[k]) {
      KeyInside(b, Indirect(b, from + k * ByteWidth(kw), kw), keys[k]);
      NumberBelow(b, buf, from + k * ByteWidth(kw), kw);
      KeyBelow(b, buf, Indirect(b, from + k * ByteWidth(kw), kw), keys[k]);
    }
  }

  // ---------------------------------------------------------------- the reader finds one tree

  lemma {:induction false} ReadsOnce(buf: seq<byte>, p: int, parent: Width, kind: nat, w: Width, s: Tree, t: Tree)
    requires Reads(buf, p, parent, kind, w, s) && Reads(buf, p, parent, kind, w, t)
    ensures s == t
    decreases s, 1
  {
    hide Thing, ReadU, ByteWidth, Indirect;
    if !s.TInt? && !s.TUInt? && !t.TInt? && !t.TUInt? {
      ThingOnce(buf, Indirect(buf, p, parent), kind, w, s, t);
    } else {
      NotNumbers(buf, Indirect(buf, p, parent), kind, w, if s.TInt? || s.TUInt? then t else s);
    }
  }

  lemma NotNumbers(buf: seq<byte>, at: int, kind: nat, w: Width, tree: Tree)
    ensures Thing(buf, at, kind, w, tree) ==> kind > 2
  {
  }

  lemma {:induction false} ThingOnce(buf: seq<byte>, at: int, kind: nat, w: Width, s: Tree, t: Tree)
    requires Thing(buf, at, kind, w, s) && Thing(buf, at, kind, w, t)
    ensures s == t
    decreases s, 0
  {
    hide Reads, Element, ReadU, ByteWidth, KeyAt, MapKeys;
    match s {
      case TKey(key) => KeyOnce(buf, at, key, t.key);
      case TVector(elems) => ElementsOnce(buf, at, w, elems, t.elems);
      case TTyped(elems) =>
        forall k | 0 <= k < |elems| ensures elems[k] == t.elems[k] {
          ReadsOnce(buf, at + k * ByteWidth(w), w, kind - 10, 0, elems[k], t.elems[k]);
        }
        assert elems == t.elems;
      case TFixed(elems) =>
        forall k | 0 <= k < |elems| ensures elems[k] == t.elems[k] {
          ReadsOnce(buf, at + k * ByteWidth(w), w, (kind - 16) % 3 + 1, 0, elems[k], t.elems[k]);
        }
        assert elems == t.elems;
      case TMap(keys, vals) =>
        ElementsOnce(buf, at, w, vals, t.vals);
        KeysOnce(buf, at, w, keys, t.keys);
    }
  }

  lemma {:induction false} ElementsOnce(buf: seq<byte>, at: int, w: Width, s: seq<Tree>, t: seq<Tree>)
    requires |s| == |t|
    requires forall k :: 0 <= k < |s| ==> Element(buf, at, w, |s|, k, s[k])
    requires forall k :: 0 <= k < |s| ==> Element(buf, at, w, |s|, k, t[k])
    ensures s == t
    decreases s, 0
  {
    hide Reads, ByteWidth;
    forall k | 0 <= k < |s| ensures s[k] == t[k] {
      assert Element(buf, at, w, |s|, k, s[k]) && Element(buf, at, w, |s|, k, t[k]);
      var b := at + |s| * ByteWidth(w) + k;
      ReadsOnce(buf, at + k * ByteWidth(w), w, buf[b] / 4, buf[b] % 4, s[k], t[k]);
    }
  }

  /** A key ends at its first NUL. */
  lemma KeyOnce(buf: seq<byte>, at: int, s: seq<byte>, t: seq<byte>)
    requires KeyAt(buf, at, s) && KeyAt(buf, at, t)
    ensures s == t
  {
    assert forall k :: 0 <= k < |s| ==> buf[at + k] == s[k] != 0;
    assert forall k :: 0 <= k < |t| ==> buf[at + k] == t[k] != 0;
  }

  lemma KeysOnce(buf: seq<byte>, at: int, w: Width, s: seq<seq<byte>>, t: seq<seq<byte>>)
    requires MapKeys(buf, at, w, s) && MapKeys(buf, at, w, t)
    ensures s == t
  {
    hide KeyAt, ReadU, Indirect;
    var a: Width :| NumberAt(buf, at - 2 * ByteWidth(w), w, ByteWidth(a))
                    && KeysAt(buf, Indirect(buf, at - 3 * ByteWidth(w), w), a, s);
    var b: Width :| NumberAt(buf, at - 2 * ByteWidth(w), w, ByteWidth(b))
                    && KeysAt(buf, Indirect(buf, at - 3 * ByteWidth(w), w), b, t);
    assert a == b;
    var from := Indirect(buf, at - 3 * ByteWidth(w), w);
    forall k | 0 <= k < |s| ensures s[k] == t[k] {
      KeyOnce(buf, Indirect(buf, from + k * ByteWidth(a), a), s[k], t[k]);
    }
  }

  /** A buffer is the document of one tree at most. */
  lemma RootOnce(buf: seq<byte>, s: Tree, t: Tree)
    requires RootReads(buf, s) && RootReads(buf, t)
    ensures s == t
  {
    hide Reads;
    var a: Width :| buf[|buf| - 1] == ByteWidth(a)
                    && Reads(buf, |buf| - 2 - ByteWidth(a), a, buf[|buf| - 2] / 4, buf[|buf| - 2] % 4, s);
    var b: Width :| buf[|buf| - 1] == ByteWidth(b)
                    && Reads(buf, |buf| - 2 - ByteWidth(b), b, buf[|buf| - 2] / 4, buf[|buf| - 2] % 4, t);
    assert a == b;
    ReadsOnce(buf, |buf| - 2 - ByteWidth(a), a, buf[|buf| - 2] / 4, buf[|buf| - 2] % 4, s, t);
  }

  // ---------------------------------------------------------------- values on the stack

  /** What a value on the builder's stack stands for. */
  ghost predicate Means(buf: seq<byte>, v: Value, tree: Tree) {
    match v
    case Int(i) => tree == TInt(i)
    case UInt(u) => tree == TUInt(u)
    case Ref(at, kind, w) => Thing(buf, at, kind, w, tree)
  }

  lemma MeansBelow(b: seq<byte>, buf: seq<byte>, v: Value, tree: Tree)
    requires b <= buf && Means(b, v, tree)
    ensures Means(buf, v, tree)
  {
    hide Thing;
    if v.Ref? { ThingBelow(b, buf, v.at, v.kind, v.width, tree); }
  }

  /** A value that was stored reads as what it stands for. */
  lemma StoredReads(buf: seq<byte>, p: nat, w: Width, v: Value, tree: Tree, own: Width)
    requires Holds(buf, p, w, v) && Means(buf, v, tree) && (v.Ref? && !tree.TKey? ==> own == v.width)
    ensures Reads(buf, p, w, TypeCode(v), own, tree)
  {
    hide ReadU, ByteWidth, KeyAt;
  }

  /** The type of the elements of a typed vector. */
  predicate AllOf(elems: seq<Tree>, kind: nat) {
    forall k :: 0 <= k < |elems| ==>
      if kind == 1 then elems[k].TInt? else if kind == 2 then elems[k].TUInt? else kind == KEY && elems[k].TKey?
  }

  /** What the assertions of CreateVector allow; a fixed vector holds numbers. */
  predicate Typable(elems: seq<Tree>, fixed: bool) {
    if fixed then 2 <= |elems| <= 4 && (AllOf(elems, 1) || AllOf(elems, 2))
    else AllOf(elems, 1) || AllOf(elems, 2) || AllOf(elems, KEY)
  }

  function Made(elems: seq<Tree>, typed: bool, fixed: bool): Tree {
    if !typed then TVector(elems) else if fixed then TFixed(elems) else TTyped(elems)
  }

  ghost predicate AllMean(buf: seq<byte>, stack: seq<Value>, trees: seq<Tree>) {
    |stack| == |trees| && forall i :: 0 <= i < |stack| ==> Means(buf, stack[i], trees[i])
  }

  lemma AllMeanBelow(b: seq<byte>, buf: seq<byte>, stack: seq<Value>, trees: seq<Tree>)
    requires b <= buf && AllMean(b, stack, trees)
    ensures AllMean(buf, stack, trees)
  {
    hide Means;
    forall i | 0 <= i < |stack| ensures Means(buf, stack[i], trees[i]) { MeansBelow(b, buf, stack[i], trees[i]); }
  }

  lemma KindOfValue(buf: seq<byte>, v: Value, tree: Tree)
    requires Means(buf, v, tree)
    ensures tree.TInt? ==> v.Int?
    ensures tree.TUInt? ==> v.UInt?
    ensures tree.TKey? ==> TypeCode(v) == KEY && v.Ref? && KeyAt(buf, v.at, tree.key)
  {
  }

  lemma LengthRead(buf: seq<byte>, at: nat, w: Width, n: nat, keys: Option<Value>)
    requires HeaderHolds(buf, at, w, n, false, keys)
    ensures NumberAt(buf, at - ByteWidth(w), w, n)
  {
    hide ReadU;
  }

  lemma UntypedMeans(buf: seq<byte>, at: nat, w: Width, stack: seq<Value>, start: nat, step: nat, elems: seq<Tree>)
    requires ElemsHold(buf, at, w, stack, start, step, |elems|)
    requires TypesHold(buf, at + |elems| * ByteWidth(w), w, stack, start, step, |elems|)
    requires forall k :: 0 <= k < |elems| ==> start + k * step < |stack| && Means(buf, Elem(stack, start, step, k), elems[k])
    ensures forall k :: 0 <= k < |elems| ==> Element(buf, at, w, |elems|, k, elems[k])
  {
    hide Means, Holds, Reads, ByteWidth, Elem, PackedType, Sound;
    forall k | 0 <= k < |elems| ensures Element(buf, at, w, |elems|, k, elems[k]) {
      var v := Elem(stack, start, step, k);
      assert TypeHolds(buf, at + |elems| * ByteWidth(w), w, stack, start, step, k);
      Unpacked(v, w);
      StoredReads(buf, at + k * ByteWidth(w), w, v, elems[k], PackedType(v, w) % 4);
    }
  }

  lemma Unpacked(v: Value, w: Width)
    requires Sound(v)
    ensures PackedType(v, w) / 4 == TypeCode(v) && (v.Ref? ==> PackedType(v, w) % 4 == v.width)
  {
  }

  lemma TypedMeans(buf: seq<byte>, at: nat, w: Width, stack: seq<Value>, start: nat, kind: nat, elems: seq<Tree>)
    requires ElemsHold(buf, at, w, stack, start, 1, |elems|) && AllOf(elems, kind) && start + |elems| == |stack|
    requires forall k :: 0 <= k < |elems| ==> Means(buf, stack[start + k], elems[k])
    ensures forall k :: 0 <= k < |elems| ==> Reads(buf, at + k * ByteWidth(w), w, kind, 0, elems[k])
  {
    hide Means, Holds, Reads, ByteWidth;
    forall k | 0 <= k < |elems| ensures Reads(buf, at + k * ByteWidth(w), w, kind, 0, elems[k]) {
      var v := stack[start + k];
      assert v == Elem(stack, start, 1, k);
      KindOfValue(buf, v, elems[k]);
      StoredReads(buf, at + k * ByteWidth(w), w, v, elems[k], 0);
    }
  }

  /** A finished vector stands for its elements. */
  lemma VectorMeans(buf: seq<byte>, v: Value, stack: seq<Value>, start: nat, typed: bool, fixed: bool, trees: seq<Tree>)
    requires start <= |stack| && AllMean(buf, stack, trees) && (typed ==> Typable(trees[start..], fixed)) && (fixed ==> typed)
    requires typed ==> start == |stack| || TypeCode(stack[start]) <= 5
    requires v.Ref? && v.kind == VectorKind(stack, start, |stack| - start, typed, fixed, None)
    requires VectorHolds(buf, v, stack, start, 1, |stack| - start, typed, fixed, None)
    ensures Means(buf, v, Made(trees[start..], typed, fixed))
  {
    hide Means, ElemsHold, TypesHold, HeaderHolds, Reads, Element, ByteWidth;
    var elems := trees[start..];
    if !fixed { LengthRead(buf, v.at, v.width, |elems|, None); }
    if !typed {
      UntypedMeans(buf, v.at, v.width, stack, start, 1, elems);
    } else {
      var kind := if AllOf(elems, 1) && elems != [] then 1 else if AllOf(elems, 2) && elems != [] then 2 else KEY;
      assert elems == [] ==> AllOf(elems, KEY);
      if elems != [] { KindOfValue(buf, stack[start], elems[0]); }
      TypedMeans(buf, v.at, v.width, stack, start, kind, elems);
    }
    ThingMeans(buf, v, Made(elems, typed, fixed));
  }

  lemma ThingMeans(buf: seq<byte>, v: Value, tree: Tree)
    requires v.Ref? && Thing(buf, v.at, v.kind, v.width, tree)
    ensures Means(buf, v, tree)
  {
  }

  // ---------------------------------------------------------------- maps

  function KeyOf(tree: Tree): (key: seq<byte>) {
    if tree.TKey? then tree.key else []
  }

  function PairKeys(pairs: seq<Tree>): (keys: seq<seq<byte>>) {
    seq(|pairs| / 2, k requires 0 <= k < |pairs| / 2 => KeyOf(pairs[2 * k]))
  }

  function PairVals(pairs: seq<Tree>): (vals: seq<Tree>) {
    seq(|pairs| / 2, k requires 0 <= k < |pairs| / 2 => pairs[2 * k + 1])
  }

  predicate Pairs(pairs: seq<Tree>) {
    |pairs| % 2 == 0 && forall k :: 0 <= k < |pairs| && k % 2 == 0 ==> pairs[k].TKey?
  }

  lemma KeysMean(buf: seq<byte>, v: Value, stack: seq<Value>, start: nat, trees: seq<Tree>)
    requires start <= |stack| && AllMean(buf, stack, trees) && Pairs(trees[start..]) && v.Ref?
    requires VectorHolds(buf, v, stack, start, 2, (|stack| - start) / 2, true, false, None)
    ensures KeysAt(buf, v.at, v.width, PairKeys(trees[start..]))
  {
    hide Means, Holds, HeaderHolds, ByteWidth, KeyAt, Pairs, PairKeys;
    var len, keys := (|stack| - start) / 2, PairKeys(trees[start..]);
    PairSizes(trees[start..]);
    LengthRead(buf, v.at, v.width, len, None);
    forall k | 0 <= k < len ensures KeyAt(buf, Indirect(buf, v.at + k * ByteWidth(v.width), v.width), keys[k]) {
      PairKey(trees, start, k);
      var key := Elem(stack, start, 2, k);
      assert key == stack[start + 2 * k] && Holds(buf, v.at + k * ByteWidth(v.width), v.width, key);
      KindOfValue(buf, key, trees[start + 2 * k]);
      RefRead(buf, v.at + k * ByteWidth(v.width), v.width, key);
    }
  }

  lemma PairSizes(pairs: seq<Tree>)
    ensures |PairKeys(pairs)| == |PairVals(pairs)| == |pairs| / 2
  {
  }

  lemma PairKey(trees: seq<Tree>, start: nat, k: nat)
    requires start <= |trees| && Pairs(trees[start..]) && k < (|trees| - start) / 2
    ensures start + 2 * k < |trees| && trees[start + 2 * k] == TKey(PairKeys(trees[start..])[k])
  {
    assert trees[start..][2 * k] == trees[start + 2 * k];
  }

  lemma PairVal(trees: seq<Tree>, start: nat, k: nat)
    requires start <= |trees| && k < (|trees| - start) / 2
    ensures start + 1 + 2 * k < |trees| && trees[start + 1 + 2 * k] == PairVals(trees[start..])[k]
  {
    assert trees[start..][2 * k + 1] == trees[start + 1 + 2 * k];
  }

  lemma RefRead(buf: seq<byte>, p: nat, w: Width, v: Value)
    requires v.Ref? && Holds(buf, p, w, v)
    ensures Indirect(buf, p, w) == v.at
  {
  }

  /** The way to a map's keys. */
  lemma KeysFound(buf: seq<byte>, at: nat, w: Width, n: nat, keys: Value)
    requires HeaderHolds(buf, at, w, n, false, Some(keys))
    ensures keys.Ref? && at >= 3 * ByteWidth(w)
    ensures NumberAt(buf, at - 2 * ByteWidth(w), w, ByteWidth(keys.width)) && Indirect(buf, at - 3 * ByteWidth(w), w) == keys.at
  {
    hide ReadU;
  }

  /** A finished map stands for its pairs. */
  lemma MapMeans(buf: seq<byte>, v: Value, keys: Value, stack: seq<Value>, start: nat, trees: seq<Tree>)
    requires start <= |stack| && AllMean(buf, stack, trees) && Pairs(trees[start..]) && v.Ref? && v.kind == MAP
    requires var len := (|stack| - start) / 2;
             && VectorHolds(buf, v, stack, start + 1, 2, len, false, false, Some(keys))
             && VectorHolds(buf, keys, stack, start, 2, len, true, false, None)
    ensures Means(buf, v, TMap(PairKeys(trees[start..]), PairVals(trees[start..])))
  {
    hide Means, ElemsHold, TypesHold, HeaderHolds, Element, ByteWidth, KeysAt, Pairs, PairKeys, PairVals;
    var len, pairs := (|stack| - start) / 2, trees[start..];
    var vals := PairVals(pairs);
    PairSizes(pairs);
    LengthRead(buf, v.at, v.width, len, Some(keys));
    KeysFound(buf, v.at, v.width, len, keys);
    KeysMean(buf, keys, stack, start, trees);
    assert MapKeys(buf, v.at, v.width, PairKeys(pairs));
    forall k | 0 <= k < len
      ensures start + 1 + k * 2 < |stack| && Means(buf, Elem(stack, start + 1, 2, k), vals[k])
    {
      PairVal(trees, start, k);
    }
    UntypedMeans(buf, v.at, v.width, stack, start + 1, 2, vals);
    ThingMeans(buf, v, TMap(PairKeys(pairs), vals));
  }

  // ---------------------------------------------------------------- programs

  /** The builder's calls; `start` is where a vector's or map's values begin on the stack. */
  datatype Op =
    | PushInt(i: int)
    | PushUInt(u: nat)
    | PushKey(key: seq<byte>)
    | EndVector(start: nat, typed: bool, fixed: bool)
    | EndMap(start: nat)

  /** What a call does to what the stack stands for. */
  function Do(trees: seq<Tree>, op: Op): (r: seq<Tree>) {
    match op
    case PushInt(i) => trees + [TInt(i)]
    case PushUInt(u) => trees + [TUInt(u)]
    case PushKey(key) => trees + [TKey(key)]
    case EndVector(start, typed, fixed) =>
      if start <= |trees| then trees[..start] + [Made(trees[start..], typed, fixed)] else trees
    case EndMap(start) =>
      if start <= |trees| then trees[..start] + [TMap(PairKeys(trees[start..]), PairVals(trees[start..]))] else trees
  }

  function After(ops: seq<Op>): (trees: seq<Tree>) {
    if ops == [] then [] else Do(After(ops[..|ops| - 1]), ops[|ops| - 1])
  }

  /** strcmp(a, b) < 0. */
  predicate Less(a: seq<byte>, b: seq<byte>) {
    b != [] && (a == [] || a[0] < b[0] || (a[0] == b[0] && Less(a[1..], b[1..])))
  }

  predicate Ascending(keys: seq<seq<byte>>) {
    forall i, j :: 0 <= i < j < |keys| ==> Less(keys[i], keys[j])
  }

  /** The calls that the builder's assertions allow. A map's pairs come in the order of their
      keys, which the sort in EndMap then keeps, and fixed vectors hold numbers. */
  predicate Legal(op: Op, trees: seq<Tree>) {
    match op
    case PushInt(i) => Sound(Int(i))
    case PushUInt(u) => Sound(UInt(u))
    case PushKey(key) => 0 !in key
    case EndVector(start, typed, fixed) =>
      start <= |trees| && (fixed ==> typed) && (typed ==> Typable(trees[start..], fixed))
    case EndMap(start) => start <= |trees| && Pairs(trees[start..]) && Ascending(PairKeys(trees[start..]))
  }

  /** And all sizes stay within 64 bits. */
  predicate MayCall(op: Op, trees: seq<Tree>, size: nat) {
    size + 24 * |trees| + 200 < LIMIT && Legal(op, trees)
  }

  /** What a call adds at most to the bytes written and 24 times the values on the stack. */
  function Cost(op: Op): (n: nat) {
    match op
    case PushInt(_) => 24
    case PushUInt(_) => 24
    case PushKey(key) => 25 + |key|
    case EndVector(_, _, _) => 64
    case EndMap(_) => 104
  }

  function Total(ops: seq<Op>): (n: nat) {
    if ops == [] then 0 else Total(ops[..|ops| - 1]) + Cost(ops[|ops| - 1])
  }

  /** Every call is allowed where it stands. */
  ghost predicate KeepsRules(ops: seq<Op>) {
    Total(ops) + 200 < LIMIT && forall i :: 0 <= i < |ops| ==> Legal(ops[i], After(ops[..i]))
  }

  lemma {:induction false} TotalGrows(ops: seq<Op>, n: nat)
    requires n <= |ops|
    ensures Total(ops[..n]) <= Total(ops)
    decreases |ops|
  {
    if n < |ops| {
      assert ops[..|ops| - 1][..n] == ops[..n];
      TotalGrows(ops[..|ops| - 1], n);
    } else {
      assert ops[..n] == ops;
    }
  }

  lemma Costs(ops: seq<Op>, n: nat)
    requires n < |ops|
    ensures Total(ops[..n + 1]) == Total(ops[..n]) + Cost(ops[n]) && After(ops[..n + 1]) == Do(After(ops[..n]), ops[n])
  {
    hide Cost, Do;
    assert ops[..n + 1][..n] == ops[..n];
  }

  /** One call. */
  method Call(b: Builder, op: Op, trees0: seq<Tree>) returns (trees: seq<Tree>)
    requires b.Valid() && b.PoolHolds() && AllMean(b.buf, b.stack, trees0) && MayCall(op, trees0, |b.buf|)
    modifies b`buf, b`stack, b`keyPool
    ensures b.Valid() && b.PoolHolds() && AllMean(b.buf, b.stack, trees)
    ensures trees == Do(trees0, op) && old(b.buf) <= b.buf
    ensures |b.buf| + 24 * |b.stack| <= |old(b.buf)| + 24 * |old(b.stack)| + Cost(op)
  {
    hide AllMean, KeyAt, Typable, Pairs, PairKeys, PairVals, Made, Ascending;
    trees := Do(trees0, op);
    match op {
      case PushInt(i) =>
        b.Push(Int(i));
        OneMore(b.buf, b.buf, b.stack, trees0, Int(i), TInt(i));
      case PushUInt(u) =>
        b.Push(UInt(u));
        OneMore(b.buf, b.buf, b.stack, trees0, UInt(u), TUInt(u));
      case PushKey(key) =>
        ghost var buf := b.buf;
        var at := b.Key(key);
        OneMore(buf, b.buf, b.stack, trees0, Ref(at, KEY, 0), TKey(key));
      case EndVector(start, typed, fixed) => CallEndVector(b, start, typed, fixed, trees0);
      case EndMap(start) => CallEndMap(b, start, trees0);
    }
  }

  lemma OneMore(buf0: seq<byte>, buf: seq<byte>, stack: seq<Value>, trees: seq<Tree>, v: Value, tree: Tree)
    requires buf0 <= buf && stack != [] && stack[|stack| - 1] == v && AllMean(buf0, stack[..|stack| - 1], trees) && Means(buf, v, tree)
    ensures AllMean(buf, stack, trees + [tree])
  {
    hide Means;
    AllMeanBelow(buf0, buf, stack[..|stack| - 1], trees);
  }

  method CallEndVector(b: Builder, start: nat, typed: bool, fixed: bool, ghost trees: seq<Tree>)
    requires b.Valid() && b.PoolHolds() && AllMean(b.buf, b.stack, trees)
    requires MayCall(EndVector(start, typed, fixed), trees, |b.buf|)
    modifies b`buf, b`stack
    ensures b.Valid() && b.PoolHolds() && old(b.buf) <= b.buf
    ensures AllMean(b.buf, b.stack, trees[..start] + [Made(trees[start..], typed, fixed)])
    ensures |b.buf| + 24 * |b.stack| <= |old(b.buf)| + 24 * |old(b.stack)| + 64
  {
    hide LeastWidth, Means, KeyAt, Typable, VectorHolds, VectorKind, Made;
    ghost var buf, stack := b.buf, b.stack;
    Typed(buf, stack, trees, start, typed, fixed);
    var v := b.EndVector(start, typed, fixed);
    PoolBelow(buf, b.buf, b.keyPool);
    AllMeanBelow(buf, b.buf, stack, trees);
    VectorMeans(b.buf, v, stack, start, typed, fixed, trees);
  }

  lemma Typed(buf: seq<byte>, stack: seq<Value>, trees: seq<Tree>, start: nat, typed: bool, fixed: bool)
    requires AllMean(buf, stack, trees) && start <= |trees| && (typed ==> Typable(trees[start..], fixed))
    ensures typed ==> start == |stack| || 1 <= TypeCode(stack[start]) <= 5
    ensures typed && fixed ==> 2 <= |stack| - start <= 4
  {
    hide Means;
    if typed && start < |trees| {
      assert trees[start..][0] == trees[start];
      KindOfValue(buf, stack[start], trees[start]);
    }
  }

  method CallEndMap(b: Builder, start: nat, ghost trees: seq<Tree>)
    requires b.Valid() && b.PoolHolds() && AllMean(b.buf, b.stack, trees) && MayCall(EndMap(start), trees, |b.buf|)
    modifies b`buf, b`stack
    ensures b.Valid() && b.PoolHolds() && old(b.buf) <= b.buf
    ensures AllMean(b.buf, b.stack, trees[..start] + [TMap(PairKeys(trees[start..]), PairVals(trees[start..]))])
    ensures |b.buf| + 24 * |b.stack| <= |old(b.buf)| + 24 * |old(b.stack)| + 104
  {
    hide Means, KeyAt, VectorHolds, PairKeys, PairVals;
    ghost var buf, stack := b.buf, b.stack;
    forall i | start <= i < |stack| && (i - start) % 2 == 0 ensures stack[i].Ref? && stack[i].kind == KEY {
      assert trees[start..][i - start] == trees[i];
      KindOfValue(buf, stack[i], trees[i]);
    }
    var v, keys := b.EndMap(start);
    PoolBelow(buf, b.buf, b.keyPool);
    AllMeanBelow(buf, b.buf, stack, trees);
    MapMeans(b.buf, v, keys, stack, start, trees);
  }

  /** Every sequence of calls that the assertions allow, with keys shared or not: the stack
      stands for what the calls mean, down to the innermost vector and map. The bytes written
      stay within a bound for each call, so that only the rules of the calls can stop it. */
  method Run(b: Builder, ops: seq<Op>) returns (n: nat, trees: seq<Tree>)
    requires b.Valid() && b.PoolHolds() && b.stack == []
    modifies b`buf, b`stack, b`keyPool
    ensures b.Valid() && b.PoolHolds() && n <= |ops| && trees == After(ops[..n])
    ensures AllMean(b.buf, b.stack, After(ops[..n])) && (n < |ops| ==> !MayCall(ops[n], trees, |b.buf|))
    ensures |b.buf| + 24 * |b.stack| <= |old(b.buf)| + Total(ops[..n])
    ensures old(b.buf) == [] && KeepsRules(ops) ==> n == |ops|
  {
    hide Do, MayCall, Means, KeyAt, Cost, KeepsRules;
    n, trees := 0, [];
    assert ops[..0] == [];
    while n < |ops| && MayCall(ops[n], trees, |b.buf|)
      invariant b.Valid() && b.PoolHolds() && n <= |ops| && trees == After(ops[..n]) && AllMean(b.buf, b.stack, trees)
      invariant |b.buf| + 24 * |b.stack| <= |old(b.buf)| + Total(ops[..n])
    {
      Costs(ops, n);
      trees := Call(b, ops[n], trees);
      n := n + 1;
    }
    if n < |ops| && old(b.buf) == [] && KeepsRules(ops) { NotStopped(ops, n, |b.buf|, |b.stack|); }
  }

  lemma NotStopped(ops: seq<Op>, n: nat, size: nat, count: nat)
    requires n < |ops| && KeepsRules(ops) && size + 24 * count <= Total(ops[..n]) && count == |After(ops[..n])|
    ensures MayCall(ops[n], After(ops[..n]), size)
  {
    hide After, Total, Legal;
    TotalGrows(ops, n);
  }

  /** A whole document: what the reader finds from the end of the finished buffer is what the
      calls mean. */
  method Build(ops: seq<Op>, shareKeys: bool, force: Width) returns (b: Builder, n: nat, finished: bool)
    ensures n <= |ops| && (n < |ops| ==> !MayCall(ops[n], After(ops[..n]), |b.buf|))
    ensures finished ==> n == |ops| && |After(ops)| == 1 && RootReads(b.buf, After(ops)[0])
    ensures !finished ==> n < |ops| || |After(ops)| != 1 || |b.buf| + 8 >= LIMIT
    ensures KeepsRules(ops) && |After(ops)| == 1 ==> finished
  {
    hide Means, KeyAt, MayCall, RootReads, KeepsRules;
    b := new Builder(shareKeys, force);
    var trees;
    n, trees := Run(b, ops);
    assert ops[..|ops|] == ops;
    if KeepsRules(ops) { SizeKept(ops); }
    if n < |ops| || |trees| != 1 || |b.buf| + 8 >= LIMIT { return b, n, false; }
    ghost var buf := b.buf;
    var w := b.Finish();
    MeansBelow(buf, b.buf, b.stack[0], trees[0]);
    RootMeans(b.buf, b.stack[0], w, trees[0]);
    return b, n, true;
  }

  lemma SizeKept(ops: seq<Op>)
    requires KeepsRules(ops)
    ensures Total(ops) + 200 < LIMIT
  {
  }

  lemma RootMeans(buf: seq<byte>, root: Value, w: Width, tree: Tree)
    requires Finished(buf, root, w) && Means(buf, root, tree)
    ensures RootReads(buf, tree)
  {
    hide Means, Holds, Reads, ByteWidth, PackedType;
    Unpacked(root, 0);
    StoredReads(buf, |buf| - 2 - ByteWidth(w), w, root, tree, PackedType(root, 0) % 4);
  }

  /** A fixed vector of keys, which EndVector's assertions allow, gets the type of a fixed
      vector of numbers (flatbuffers/flexbuffers.h:104-113, 120-126): it never reads back. */
  lemma FixedKeysNeverRead(buf: seq<byte>, at: int, w: Width, elems: seq<Tree>)
    requires 2 <= |elems| <= 4 && AllOf(elems, KEY)
    ensures !Thing(buf, at, ToTypedVector(KEY, |elems|), w, TFixed(elems))
  {
    hide Holds, ReadU;
    var kind := ToTypedVector(KEY, |elems|);
    assert elems[0].TKey?;
    assert 16 <= kind <= 24 ==> (kind - 16) / 3 + 2 == |elems| + 1;
  }

  // ---------------------------------------------------------------- every document can be built

  /** The documents that these calls can make. */
  predicate WellFormed(tree: Tree) {
    match tree
    case TInt(i) => -0x8000_0000_0000_0000 <= i < 0x8000_0000_0000_0000
    case TUInt(u) => u < 0x1_0000_0000_0000_0000
    case TKey(key) => 0 !in key
    case TVector(elems) => forall k :: 0 <= k < |elems| ==> WellFormed(elems[k])
    case TTyped(elems) =>
      && (forall k :: 0 <= k < |elems| ==> WellFormed(elems[k]))
      && ((forall k :: 0 <= k < |elems| ==> elems[k].TInt?) || (forall k :: 0 <= k < |elems| ==> elems[k].TUInt?)
          || (forall k :: 0 <= k < |elems| ==> elems[k].TKey?))
    case TFixed(elems) =>
      && 2 <= |elems| <= 4 && (forall k :: 0 <= k < |elems| ==> WellFormed(elems[k]))
      && ((forall k :: 0 <= k < |elems| ==> elems[k].TInt?) || (forall k :: 0 <= k < |elems| ==> elems[k].TUInt?))
    case TMap(keys, vals) =>
      && |keys| == |vals| && (forall k :: 0 <= k < |keys| ==> 0 !in keys[k]) && Ascending(keys)
      && forall k :: 0 <= k < |vals| ==> WellFormed(vals[k])
  }

  /** The calls that make it, with `at` values on the stack before. */
  function Emit(tree: Tree, at: nat): (ops: seq<Op>)
    decreases tree, 1
  {
    match tree
    case TInt(i) => [PushInt(i)]
    case TUInt(u) => [PushUInt(u)]
    case TKey(key) => [PushKey(key)]
    case TVector(elems) => EmitAll(elems, at) + [EndVector(at, false, false)]
    case TTyped(elems) => EmitAll(elems, at) + [EndVector(at, true, false)]
    case TFixed(elems) => EmitAll(elems, at) + [EndVector(at, true, true)]
    case TMap(keys, vals) => EmitPairs(keys, vals, at) + [EndMap(at)]
  }

  function EmitAll(elems: seq<Tree>, at: nat): (ops: seq<Op>)
    decreases elems, 0
  {
    if elems == [] then []
    else
      var n := |elems| - 1;
      EmitAll(elems[..n], at) + Emit(elems[n], at + n)
  }

  function EmitPairs(keys: seq<seq<byte>>, vals: seq<Tree>, at: nat): (ops: seq<Op>)
    decreases vals, 0
  {
    if vals == [] || |keys| != |vals| then []
    else
      var n := |vals| - 1;
      EmitPairs(keys[..n], vals[..n], at) + ([PushKey(keys[n])] + Emit(vals[n], at + 2 * n + 1))
  }

  /** A bound for the size of the document. */
  function Weight(tree: Tree): (n: nat)
    decreases tree, 1
  {
    match tree
    case TInt(_) => 24
    case TUInt(_) => 24
    case TKey(key) => 25 + |key|
    case TVector(elems) => Weights(elems) + 64
    case TTyped(elems) => Weights(elems) + 64
    case TFixed(elems) => Weights(elems) + 64
    case TMap(keys, vals) => KeyWeights(keys) + Weights(vals) + 104
  }

  function Weights(elems: seq<Tree>): (n: nat)
    decreases elems, 0
  {
    if elems == [] then 0 else Weights(elems[..|elems| - 1]) + Weight(elems[|elems| - 1])
  }

  function KeyWeights(keys: seq<seq<byte>>): (n: nat) {
    if keys == [] then 0 else KeyWeights(keys[..|keys| - 1]) + 25 + |keys[|keys| - 1]|
  }

  /** The effect of calls on values that are there already. */
  function Effect(trees: seq<Tree>, ops: seq<Op>): (r: seq<Tree>) {
    if ops == [] then trees else Do(Effect(trees, ops[..|ops| - 1]), ops[|ops| - 1])
  }

  ghost predicate AllLegal(trees: seq<Tree>, ops: seq<Op>) {
    ops != [] ==> AllLegal(trees, ops[..|ops| - 1]) && Legal(ops[|ops| - 1], Effect(trees, ops[..|ops| - 1]))
  }

  lemma {:induction false} EffectAppend(trees: seq<Tree>, a: seq<Op>, b: seq<Op>)
    ensures Effect(trees, a + b) == Effect(Effect(trees, a), b)
    ensures AllLegal(trees, a) && AllLegal(Effect(trees, a), b) ==> AllLegal(trees, a + b)
    ensures Total(a + b) == Total(a) + Total(b)
    decreases |b|
  {
    hide Do, Legal, Cost;
    if b == [] {
      assert a + b == a;
    } else {
      assert (a + b)[..|a + b| - 1] == a + b[..|b| - 1];
      EffectAppend(trees, a, b[..|b| - 1]);
    }
  }

  lemma OneEffect(trees: seq<Tree>, op: Op)
    ensures Effect(trees, [op]) == Do(trees, op) && (AllLegal(trees, [op]) <==> Legal(op, trees)) && Total([op]) == Cost(op)
  {
    hide Do, Legal, Cost;
    assert [op][..0] == [];
  }

  /** One more call. */
  lemma EffectSnoc(trees: seq<Tree>, ops: seq<Op>, op: Op)
    ensures Effect(trees, ops + [op]) == Do(Effect(trees, ops), op) && Total(ops + [op]) == Total(ops) + Cost(op)
    ensures AllLegal(trees, ops) && Legal(op, Effect(trees, ops)) ==> AllLegal(trees, ops + [op])
  {
    hide Do, Legal, Cost;
    EffectAppend(trees, ops, [op]);
    OneEffect(Effect(trees, ops), op);
  }

  lemma {:induction false} EmitMakes(tree: Tree, trees: seq<Tree>)
    requires WellFormed(tree)
    ensures var ops := Emit(tree, |trees|);
            AllLegal(trees, ops) && Effect(trees, ops) == trees + [tree] && Total(ops) == Weight(tree)
    decreases tree, 1
  {
    hide AllLegal, Effect, Total, Typable, PairKeys, PairVals, Ascending, Weights, KeyWeights;
    match tree {
      case TInt(i) => OneEffect(trees, PushInt(i));
      case TUInt(u) => OneEffect(trees, PushUInt(u));
      case TKey(key) => OneEffect(trees, PushKey(key));
      case TVector(elems) => EmitVector(trees, elems, false, false);
      case TTyped(elems) => EmitVector(trees, elems, true, false);
      case TFixed(elems) => EmitVector(trees, elems, true, true);
      case TMap(keys, vals) =>
        EmitPairsMakes(keys, vals, trees);
        EffectSnoc(trees, EmitPairs(keys, vals, |trees|), EndMap(|trees|));
        InterleavedPairs(keys, vals);
        assert (trees + Interleaved(keys, vals))[|trees|..] == Interleaved(keys, vals);
        assert (trees + Interleaved(keys, vals))[..|trees|] == trees;
    }
  }

  lemma {:induction false} EmitVector(trees: seq<Tree>, elems: seq<Tree>, typed: bool, fixed: bool)
    requires WellFormed(Made(elems, typed, fixed)) && (fixed ==> typed)
    ensures var ops := EmitAll(elems, |trees|) + [EndVector(|trees|, typed, fixed)];
            && AllLegal(trees, ops) && Effect(trees, ops) == trees + [Made(elems, typed, fixed)]
            && Total(ops) == Weights(elems) + 64
    decreases elems, 1
  {
    hide AllLegal, Effect, Total, Weights;
    EmitAllMakes(elems, trees);
    EffectSnoc(trees, EmitAll(elems, |trees|), EndVector(|trees|, typed, fixed));
    assert (trees + elems)[|trees|..] == elems && (trees + elems)[..|trees|] == trees;
  }

  lemma {:induction false} EmitAllMakes(elems: seq<Tree>, trees: seq<Tree>)
    requires forall k :: 0 <= k < |elems| ==> WellFormed(elems[k])
    ensures var ops := EmitAll(elems, |trees|);
            AllLegal(trees, ops) && Effect(trees, ops) == trees + elems && Total(ops) == Weights(elems)
    decreases elems, 0
  {
    hide WellFormed, Emit, Weight, AllLegal, Effect, Total;
    if elems == [] {
      NoEffect(trees);
      assert trees + elems == trees;
    } else {
      var n := |elems| - 1;
      EmitAllMakes(elems[..n], trees);
      EmitMakes(elems[n], trees + elems[..n]);
      EffectAppend(trees, EmitAll(elems[..n], |trees|), Emit(elems[n], |trees| + n));
      assert trees + elems[..n] + [elems[n]] == trees + elems;
    }
  }

  /** Keys and values as they lie on the stack. */
  function Interleaved(keys: seq<seq<byte>>, vals: seq<Tree>): (trees: seq<Tree>)
    requires |keys| == |vals|
    ensures |trees| == 2 * |vals|
    decreases |vals|
  {
    if vals == [] then []
    else
      var n := |vals| - 1;
      Interleaved(keys[..n], vals[..n]) + [TKey(keys[n]), vals[n]]
  }

  lemma {:induction false} InterleavedAt(keys: seq<seq<byte>>, vals: seq<Tree>, k: nat)
    requires |keys| == |vals| && k < |vals|
    ensures Interleaved(keys, vals)[2 * k] == TKey(keys[k]) && Interleaved(keys, vals)[2 * k + 1] == vals[k]
    decreases |vals|
  {
    if k < |vals| - 1 { InterleavedAt(keys[..|vals| - 1], vals[..|vals| - 1], k); }
  }

  lemma InterleavedPairs(keys: seq<seq<byte>>, vals: seq<Tree>)
    requires |keys| == |vals|
    ensures var pairs := Interleaved(keys, vals); Pairs(pairs) && PairKeys(pairs) == keys && PairVals(pairs) == vals
  {
    hide Interleaved;
    var pairs := Interleaved(keys, vals);
    forall k | 0 <= k < |vals| ensures pairs[2 * k] == TKey(keys[k]) && pairs[2 * k + 1] == vals[k] {
      InterleavedAt(keys, vals, k);
    }
    KeysFirst(keys, pairs);
    assert PairVals(pairs) == vals;
  }

  lemma KeysFirst(keys: seq<seq<byte>>, pairs: seq<Tree>)
    requires |pairs| == 2 * |keys| && forall k :: 0 <= k < |keys| ==> pairs[2 * k] == TKey(keys[k])
    ensures Pairs(pairs) && PairKeys(pairs) == keys
  {
    forall k | 0 <= k < |pairs| && k % 2 == 0 ensures pairs[k].TKey? { assert pairs[2 * (k / 2)] == TKey(keys[k / 2]); }
    assert PairKeys(pairs) == keys;
  }

  lemma {:induction false} EmitPairsMakes(keys: seq<seq<byte>>, vals: seq<Tree>, trees: seq<Tree>)
    requires |keys| == |vals| && (forall k :: 0 <= k < |keys| ==> 0 !in keys[k])
    requires forall k :: 0 <= k < |vals| ==> WellFormed(vals[k])
    ensures var ops := EmitPairs(keys, vals, |trees|);
            && AllLegal(trees, ops) && Effect(trees, ops) == trees + Interleaved(keys, vals)
            && Total(ops) == KeyWeights(keys) + Weights(vals)
    decreases vals, 0
  {
    hide WellFormed, Emit, Weight, AllLegal, Effect, Total;
    if vals == [] {
      NoEffect(trees);
      assert trees + Interleaved(keys, vals) == trees;
    } else {
      var n := |vals| - 1;
      var before := EmitPairs(keys[..n], vals[..n], |trees|);
      EmitPairsMakes(keys[..n], vals[..n], trees);
      var trees1 := trees + Interleaved(keys[..n], vals[..n]);
      OneEffect(trees1, PushKey(keys[n]));
      var trees2 := trees1 + [TKey(keys[n])];
      EmitMakes(vals[n], trees2);
      EffectAppend(trees1, [PushKey(keys[n])], Emit(vals[n], |trees2|));
      EffectAppend(trees, before, [PushKey(keys[n])] + Emit(vals[n], |trees2|));
      assert trees2 + [vals[n]] == trees + Interleaved(keys, vals);
    }
  }

  lemma NoEffect(trees: seq<Tree>)
    ensures AllLegal(trees, []) && Effect(trees, []) == trees && Total([]) == 0
  {
  }

  lemma {:induction false} EffectIsAfter(ops: seq<Op>)
    ensures Effect([], ops) == After(ops)
    ensures AllLegal([], ops) ==> forall i :: 0 <= i < |ops| ==> Legal(ops[i], After(ops[..i]))
    decreases |ops|
  {
    hide Do, Legal;
    if ops != [] {
      var n := |ops| - 1;
      EffectIsAfter(ops[..n]);
      forall i | AllLegal([], ops) && 0 <= i < |ops| ensures Legal(ops[i], After(ops[..i])) {
        if i < n { assert ops[..n][..i] == ops[..i]; }
      }
    }
  }

  /** Every well-formed document can be built, and reads back. */
  method BuildTree(tree: Tree, shareKeys: bool, force: Width) returns (b: Builder)
    requires WellFormed(tree) && Weight(tree) + 200 < LIMIT
    ensures RootReads(b.buf, tree)
  {
    hide WellFormed, RootReads, After, Legal, Weight;
    EmitMakes(tree, []);
    EffectIsAfter(Emit(tree, 0));
    assert [] + [tree] == [tree];
    var n, finished;
    b, n, finished := Build(Emit(tree, 0), shareKeys, force);
  }
}
