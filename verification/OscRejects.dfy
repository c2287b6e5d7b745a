/** What parsePkg does with any bytes received, texts that are no package included, and
    which streams can then go wrong (osc/OscSession.cpp:72-125, 201-227). */
module OscRejects {
  import Base64
  import opened Bytes
  import Lz4Spec
  import opened Options
  import opened OscFlow
  import opened OscFraming

  /** The package that a text stands for (osc/OscSession.cpp:102-122). */
  function Payload(text: string): (p: Option<seq<byte>>) {
    if |text| > MAX_ENCODED then None
    else
      match Base64.Decode(text)
      case Invalid => None
      case Data(xz) =>
        if |xz| == 0 then None
        else
          match Lz4Spec.Decompress(xz, [], 0, MAX_ENCODED)
          case Malformed(_) => None
          case Decoded(mem) => if |mem| == 0 then None else Some(mem)
  }

  predicate Bad(text: string) {
    Payload(text) == None
  }

  predicate AllPackages(texts: seq<string>) {
    forall i :: 0 <= i < |texts| ==> Payload(texts[i]).Some?
  }

  function Payloads(texts: seq<string>): (ps: seq<seq<byte>>)
    requires AllPackages(texts)
    ensures |ps| == |texts|
  {
    seq(|texts|, i requires 0 <= i < |texts| => Payload(texts[i]).value)
  }

  // ---------------------------------------------------------------- parsing from the start of the buffer

  /** What parsePkg leaves in the buffer, where its index is then, and the texts that it took,
      the last of which may have been rejected. */
  datatype Leftover = Leftover(buffer: string, index: nat, texts: seq<string>)

  function Consume(v: string): (r: Leftover)
    ensures r.index <= |r.buffer| <= |v|
    decreases |v|
  {
    var p := FindPrefix(v, 0);
    if p == |v| then Leftover(Ending(v), 0, [])
    else
      var e, z := EndOf(v, p + PREFIX_LEN), AfterNul(v, p);
      if e < |v| && v[e] == BEL then
        var text := v[p + PREFIX_LEN..e];
        if Bad(text) then Leftover(v[z..], e - z, [text])
        else
          var r := Consume(v[e..]);
          r.(texts := [text] + r.texts)
      else Leftover(v[z..], 0, [])
  }

  lemma ConsumeNone(v: string)
    requires FindPrefix(v, 0) == |v|
    ensures Consume(v) == Leftover(Ending(v), 0, [])
  {
    hide Ending, Bad;
  }

  lemma ConsumeUnfinished(v: string, p: nat, e: nat)
    requires p == FindPrefix(v, 0) < |v| && p + PREFIX_LEN <= |v|
    requires e == EndOf(v, p + PREFIX_LEN) && (e < |v| ==> v[e] != BEL)
    ensures Consume(v) == Leftover(v[AfterNul(v, p)..], 0, [])
  {
    hide EndOf, OccursAt, FindPrefix, AfterNul, Ending, Bad;
  }

  lemma ConsumeBad(v: string, p: nat, e: nat)
    requires p == FindPrefix(v, 0) < |v| && p + PREFIX_LEN <= |v|
    requires e == EndOf(v, p + PREFIX_LEN) < |v| && v[e] == BEL && Bad(v[p + PREFIX_LEN..e])
    ensures Consume(v) == Leftover(v[AfterNul(v, p)..], e - AfterNul(v, p), [v[p + PREFIX_LEN..e]])
  {
    hide EndOf, OccursAt, FindPrefix, AfterNul, Ending, Bad;
  }

  function Prepend(texts: seq<string>, r: Leftover): Leftover {
    r.(texts := texts + r.texts)
  }

  lemma PrependMore(a: seq<string>, b: seq<string>, r: Leftover)
    ensures Prepend(a, Prepend(b, r)) == Prepend(a + b, r) && Prepend([], r) == r
  {
    assert a + (b + r.texts) == a + b + r.texts;
  }

  lemma ConsumeGood(v: string, p: nat, e: nat)
    requires p == FindPrefix(v, 0) < |v| && p + PREFIX_LEN <= |v|
    requires e == EndOf(v, p + PREFIX_LEN) < |v| && v[e] == BEL && !Bad(v[p + PREFIX_LEN..e])
    ensures Consume(v) == Prepend([v[p + PREFIX_LEN..e]], Consume(v[e..]))
  {
    hide EndOf, OccursAt, FindPrefix, AfterNul, Ending, Bad;
  }

  /** What the skip loop drops plays no part. */
  lemma ConsumeKept(v: string)
    ensures Consume(Kept(v)) == Consume(v)
  {
    hide FindPrefix, EndOf, OccursAt, AfterNul, Consume, Ending, Bad;
    var p := FindPrefix(v, 0);
    if p == |v| {
      RestNone(v);
      NoneInEnding(v);
      ConsumeNone(v);
      ConsumeNone(Ending(v));
    } else {
      PrefixFits(v, p);
      KeptFrame(v, p);
      ConsumeFrom(v, p, EndOf(v, p + PREFIX_LEN), AfterNul(v, p), Kept(v));
      ConsumeFrom(v, p, EndOf(v, p + PREFIX_LEN), AfterNul(v, p), v[AfterNul(v, p)..]);
      ConsumeIs(v, p, EndOf(v, p + PREFIX_LEN));
    }
  }

  /** What comes of a frame at `p` whose text stops at `e`, in what is left of `v` from `z`. */
  function TakenFrom(v: string, p: nat, e: nat, z: nat): Leftover
    requires z <= p && p + PREFIX_LEN <= e <= |v|
  {
    if e < |v| && v[e] == BEL then
      var text := v[p + PREFIX_LEN..e];
      if Bad(text) then Leftover(v[z..], e - z, [text]) else Prepend([text], Consume(v[e..]))
    else Leftover(v[z..], 0, [])
  }

  lemma ConsumeIs(v: string, p: nat, e: nat)
    requires p == FindPrefix(v, 0) < |v| && p + PREFIX_LEN <= |v| && e == EndOf(v, p + PREFIX_LEN)
    ensures Consume(v) == TakenFrom(v, p, e, AfterNul(v, p))
  {
    hide FindPrefix, EndOf, OccursAt, AfterNul, Consume, Bad;
    if e < |v| && v[e] == BEL {
      if Bad(v[p + PREFIX_LEN..e]) { ConsumeBad(v, p, e); } else { ConsumeGood(v, p, e); }
    } else {
      ConsumeUnfinished(v, p, e);
    }
  }

  /** The frame seen from `z`, between the last NUL and it. */
  lemma ConsumeFrom(v: string, p: nat, e: nat, z: nat, u: string)
    requires p == FindPrefix(v, 0) < |v| && p + PREFIX_LEN <= |v| && e == EndOf(v, p + PREFIX_LEN)
    requires AfterNul(v, p) <= z <= p && u == v[z..]
    ensures Consume(u) == TakenFrom(v, p, e, z)
  {
    hide *;
    FindDrop(v, z);
    EndDrop(v, z, p + PREFIX_LEN);
    ConsumeIs(u, p - z, e - z);
    NoNulBetween(v, p, z);
    TakenLater(v, p, e, z, u);
  }

  lemma NoNulBetween(v: string, p: nat, z: nat)
    requires p <= |v| && AfterNul(v, p) <= z <= p
    ensures AfterNul(v[z..], p - z) == 0
  {
    AfterNulIs(v[z..], p - z, 0);
  }

  lemma TakenLater(v: string, p: nat, e: nat, z: nat, u: string)
    requires z <= p && p + PREFIX_LEN <= e <= |v| && u == v[z..]
    ensures TakenFrom(u, p - z, e - z, 0) == TakenFrom(v, p, e, z)
  {
    hide Consume, Bad;
    Slices(v, u, z, p + PREFIX_LEN - z, e - z);
    assert u[0..] == u;
  }

  // ---------------------------------------------------------------- parsing from behind a rejected text

  /** The first NUL, or the end. */
  function FirstNul(u: string): (z: nat)
    ensures z <= |u| && (z < |u| ==> u[z] == NUL)
    ensures forall k :: 0 <= k < z ==> u[k] != NUL
  {
    if u == [] || u[0] == NUL then 0 else 1 + FirstNul(u[1..])
  }

  /** strstr finds a frame start. */
  predicate PrefixAhead(u: string) {
    FindPrefix(u, 0) < FirstNul(u)
  }

  /** What is behind the first NUL: nothing if there is none. */
  function BehindNul(u: string): (r: string)
    ensures |r| <= |u|
  {
    var z := FirstNul(u);
    if z < |u| then u[z + 1..] else []
  }

  /** The text ends in the beginning of a frame start. */
  predicate EndsInPrefix(v: string) {
    exists j :: 1 <= j < PREFIX_LEN && j <= |v| && v[|v| - j..] == PREFIX[..j]
  }

  /** What one parsePkg does: it moves past the bytes received, or leaves a buffer; `lost`
      if it has dropped what may be the beginning of a frame. */
  datatype Pass = Pass(left: Leftover, lost: bool) | Past

  /** A frame start at `p`, seen from index `k`: all that is before it stays until a package
      is taken. */
  function FromIndex(b: string, k: nat, p: nat): (r: Leftover)
    requires k <= p && p + PREFIX_LEN <= |b|
    ensures r.index <= |r.buffer| <= |b|
  {
    var e := EndOf(b, p + PREFIX_LEN);
    if e < |b| && b[e] == BEL then
      var text := b[p + PREFIX_LEN..e];
      if Bad(text) then Leftover(b, e, [text]) else Prepend([text], Consume(b[e..]))
    else Leftover(b, k, [])
  }

  /** parsePkg (osc/OscSession.cpp:72-125) on the buffer `b` with its index at `k`. */
  function Parsed(b: string, k: nat): (r: Pass)
    requires k <= |b|
    ensures r.Pass? ==> r.left.index <= |r.left.buffer| <= |b|
  {
    if k == 0 then Pass(Consume(b), false)
    else
      var u := b[k..];
      if PrefixAhead(u) then Pass(FromIndex(b, k, k + FindPrefix(u, 0)), false)
      else if FirstNul(u) == |u| && k > PREFIX_LEN then Past
      else Pass(Consume(BehindNul(u)), FirstNul(u) == |u| && EndsInPrefix(u))
  }

  /** How one round of parsePkg's loop ends. */
  datatype Round = Taken | Unfinished | Refused | Lost

  /** What parsePkg does in all if a round has left `b` with its index at `k`. */
  function Account(r: Round, text: string, b: string, k: nat): Leftover
    requires k <= |b|
  {
    match r
    case Taken => Prepend([text], Consume(b))
    case Refused => Leftover(b, k, [text])
    case _ => Leftover(b, k, [])
  }

  lemma FromStart(b: string, p: nat)
    requires p == FindPrefix(b, 0) && p + PREFIX_LEN <= |b| && AfterNul(b, p) == 0
    ensures Consume(b) == FromIndex(b, 0, p)
  {
    hide FindPrefix, EndOf, OccursAt, AfterNul, Consume, Bad;
    ConsumeIs(b, p, EndOf(b, p + PREFIX_LEN));
    assert b[0..] == b;
  }

  /** What a round makes of the frame at `p`. */
  lemma Accounted(b0: string, k0: nat, p: nat, e: nat, r: Round, text: string, b: string, k: nat)
    requires k0 <= p && p + PREFIX_LEN <= |b0| && e == EndOf(b0, p + PREFIX_LEN) && k <= |b|
    requires if e < |b0| && b0[e] == BEL then
               && text == b0[p + PREFIX_LEN..e]
               && if Bad(text) then r == Refused && b == b0 && k == e else r == Taken && b == b0[e..]
             else r == Unfinished && b == b0 && k == k0
    ensures FromIndex(b0, k0, p) == Account(r, text, b, k)
  {
    hide EndOf, Consume, Bad;
  }

  lemma ParsedStart(b: string)
    ensures Parsed(b, 0) == Pass(Consume(b), false)
  {
    hide Consume;
  }

  /** One round more. */
  lemma RoundAfter(start: string, texts: seq<string>, b: string, r: Round, text: string, b1: string, k1: nat, lost: bool)
    requires Consume(start) == Prepend(texts, Consume(b)) && k1 <= |b1| && r != Lost
    requires Parsed(b, 0) == Pass(Account(r, text, b1, k1), lost)
    ensures r == Taken ==> Consume(start) == Prepend(texts + [text], Consume(b1))
    ensures r != Taken ==> Consume(start) == Leftover(b1, k1, if r == Refused then texts + [text] else texts)
  {
    hide Consume;
    if r == Taken { PrependMore(texts, [text], Consume(b1)); }
  }

  lemma ConsumeTiny(v: string)
    requires |v| <= PREFIX_LEN
    ensures Consume(v) == Leftover(v, 0, [])
  {
    hide AfterNul, Consume;
    var p := FindPrefix(v, 0);
    if p == |v| {
      ConsumeNone(v);
    } else {
      PrefixFits(v, p);
      AfterNulIs(v, 0, 0);
      ConsumeIs(v, 0, |v|);
      assert v[0..] == v;
    }
  }

  /** What the skip loop leaves, `p` being the frame start that it has found, if any. */
  predicate SkipLeaves(b0: string, k0: nat, b: string, k: nat, p: int)
    requires k0 <= |b0| && k <= |b|
  {
    var u := b0[k0..];
    if k0 > 0 && PrefixAhead(u) then k == k0 && b == b0 && p >= 0
    else k == 0 && b == Kept(if k0 == 0 then u else BehindNul(u))
  }

  /** What skips have left of `u0`, the view at first, with its index at `k0`. */
  ghost predicate DropsTo(u0: string, k0: nat, u: string) {
    Kept(u) == Kept(if k0 == 0 then u0 else BehindNul(u0)) && (k0 > 0 ==> !PrefixAhead(u0))
  }

  lemma DropsNothing(u0: string)
    ensures DropsTo(u0, 0, u0)
  {
  }

  /** One skip more. */
  lemma DropsMore(u0: string, k0: nat, u: string, skipped: bool, v: string)
    requires skipped || k0 == 0 ==> DropsTo(u0, k0, u) && Kept(v) == Kept(u)
    requires !skipped && k0 > 0 ==> u == u0 && v == BehindNul(u) && !PrefixAhead(u)
    ensures DropsTo(u0, k0, v)
  {
    hide Kept, BehindNul, PrefixAhead;
  }

  lemma LeavesFound(b0: string, k0: nat, u0: string, b: string, k: nat, v: string, p: int, skipped: bool)
    requires k0 <= |b0| && u0 == b0[k0..] && k <= |b| && v == b[k..] && p >= 0
    requires if skipped then k == 0 else b == b0 && k == k0 && (k0 > 0 ==> PrefixAhead(u0))
    requires (skipped || k0 == 0 ==> DropsTo(u0, k0, v)) && Kept(v) == v
    ensures SkipLeaves(b0, k0, b, k, p) && (k0 == 0 ==> v == Kept(u0))
  {
    hide Kept, BehindNul, PrefixAhead;
    assert k == 0 ==> v == b;
  }

  lemma LeavesShort(b0: string, k0: nat, u0: string, b: string, k: nat, v: string, p: int)
    requires k0 <= |b0| && u0 == b0[k0..] && k == 0 <= |b| && v == b[k..]
    requires DropsTo(u0, k0, v) && Kept(v) == v
    ensures SkipLeaves(b0, k0, b, k, p) && (k0 == 0 ==> v == Kept(u0))
  {
    hide Kept, BehindNul, PrefixAhead;
    assert v == b;
  }

  /** What the skip loop has found is where parsing goes on. */
  lemma Sought(b0: string, k0: nat, b: string, k: nat, p: int, lost: bool)
    requires k0 <= |b0| && k <= |b| && SkipLeaves(b0, k0, b, k, p) && (k0 == 0 || k0 >= PREFIX_LEN)
    requires var u := b0[k0..];
             var none := !PrefixAhead(u) && FirstNul(u) == |u|;
             !(k0 > PREFIX_LEN && none) && (lost <==> k0 == PREFIX_LEN && none && EndsInPrefix(u))
    requires if p >= 0 then k <= p && p + PREFIX_LEN <= |b| && FindPrefix(b[k..], 0) == p - k && Kept(b[k..]) == b[k..]
             else |b| <= PREFIX_LEN
    ensures Parsed(b0, k0) == Pass(if p >= 0 then FromIndex(b, k, p) else Leftover(b, k, []), lost)
    ensures p < 0 ==> k == 0
  {
    hide FindPrefix, AfterNul, Consume, Kept, FromIndex, BehindNul, FirstNul, EndsInPrefix, Bad, PrefixAhead;
    if k0 == 0 || !PrefixAhead(b0[k0..]) {
      assert b[0..] == b;
      assert b0[0..] == b0;
      SoughtFrom(if k0 == 0 then b0 else BehindNul(b0[k0..]), b, p);
    }
  }

  lemma SoughtFrom(v: string, b: string, p: int)
    requires b == Kept(v)
    requires if p >= 0 then p + PREFIX_LEN <= |b| && FindPrefix(b, 0) == p && Kept(b) == b else |b| <= PREFIX_LEN
    ensures Consume(v) == if p >= 0 then FromIndex(b, 0, p) else Leftover(b, 0, [])
  {
    hide FindPrefix, AfterNul, Consume, Kept, FromIndex;
    ConsumeKept(v);
    if p >= 0 { FoundFromStart(b, p); } else { ConsumeTiny(b); }
  }

  /** A frame start found from index 0 is the one that parsing from the start finds. */
  lemma FoundFromStart(b: string, p: nat)
    requires FindPrefix(b, 0) == p && p + PREFIX_LEN <= |b| && Kept(b) == b
    ensures Consume(b) == FromIndex(b, 0, p)
  {
    hide FindPrefix, AfterNul, Consume, FromIndex;
    FromStart(b, p);
  }

  // ---------------------------------------------------------------- sessions

  /** A receiving session: the buffer and how much of the input was read, parsePkg's index,
      the texts taken so far, and whether the beginning of a frame may have been dropped. */
  datatype Session =
    | Session(flow: Flow, index: nat, texts: seq<string>, lost: bool)
    | PastEnd(read: nat, texts: seq<string>)

  predicate InBuffer(input: string, s: Session) {
    match s
    case Session(flow, index, _, _) => index <= |flow.view| < BUFFER_SIZE && flow.read <= |input|
    case PastEnd(read, _) => read <= |input|
  }

  function After(input: string, s: Session, step: Step): (r: Session)
    requires InBuffer(input, s)
    ensures InBuffer(input, r)
  {
    match s
    case PastEnd(_, _) => s
    case Session(flow, index, texts, lost) =>
      match step
      case ReadInput(_) => s.(flow := Next(input, flow, step))
      case RunParse =>
        match Parsed(flow.view, index)
        case Past => PastEnd(flow.read, texts)
        case Pass(left, lost') =>
          Session(Flow(left.buffer, flow.read), left.index, texts + left.texts, lost || lost')
  }

  /** Any order of reads and parses, from an empty buffer. */
  function PlayAll(input: string, steps: seq<Step>): (s: Session)
    ensures InBuffer(input, s)
  {
    if steps == [] then Session(Flow([], 0), 0, [], false)
    else After(input, PlayAll(input, steps[..|steps| - 1]), steps[|steps| - 1])
  }

  lemma PlayAllOne(input: string, pre: seq<Step>, step: Step)
    ensures PlayAll(input, pre + [step]) == After(input, PlayAll(input, pre), step)
  {
    hide After;
    assert (pre + [step])[..|pre|] == pre;
  }

  lemma {:induction false} PastForEver(input: string, steps: seq<Step>, n: nat)
    requires n <= |steps| && PlayAll(input, steps[..n]).PastEnd?
    ensures PlayAll(input, steps) == PlayAll(input, steps[..n])
    decreases |steps|
  {
    hide Next, Parsed;
    if n == |steps| {
      assert steps[..n] == steps;
    } else {
      var before := steps[..|steps| - 1];
      assert before[..n] == steps[..n];
      PastForEver(input, before, n);
    }
  }

  lemma PlayAllNext(input: string, steps: seq<Step>, i: nat)
    requires i < |steps|
    ensures PlayAll(input, steps[..i + 1]) == After(input, PlayAll(input, steps[..i]), steps[i])
  {
    assert steps[..i + 1] == steps[..i] + [steps[i]];
    PlayAllOne(input, steps[..i], steps[i]);
  }

  function ReadOf(s: Session): nat {
    if s.Session? then s.flow.read else s.read
  }

  /** The texts taken and the bytes not used are those of what was read. */
  ghost predicate Sound(input: string, s: Session)
    requires s.Session? && InBuffer(input, s)
  {
    !s.lost ==> Reads(input[..s.flow.read], s.texts, s.flow.view[s.index..])
  }

  lemma SoundParse(input: string, s: Session)
    requires s.Session? && InBuffer(input, s) && Sound(input, s) && !s.lost
    ensures s.texts + Parse(s.flow.view[s.index..] + input[s.flow.read..]) == Parse(input)
  {
    hide Parse;
    var rest := input[s.flow.read..];
    assert input[..s.flow.read] + rest == input;
    assert Parse(input[..s.flow.read] + rest) == s.texts + Parse(s.flow.view[s.index..] + rest);
  }

  /** A parse that drops no beginning of a frame. */
  lemma SoundAfter(input: string, s: Session, view: string, more: seq<string>, b: string, k: nat)
    requires s.Session? && InBuffer(input, s) && Sound(input, s) && view == s.flow.view[s.index..] && k <= |b|
    requires var q := Parsed(s.flow.view, s.index);
             q.Pass? && q.left == Leftover(b, k, more) && (!q.lost ==> Reads(view, more, b[k..]))
    ensures var r := After(input, s, RunParse); r.Session? && Sound(input, r)
  {
    hide Parsed, Reads, Parse;
    if !s.lost && !Parsed(s.flow.view, s.index).lost {
      ReadsTrans(input[..s.flow.read], s.texts, view, more, b[k..]);
    }
  }

  // ---------------------------------------------------------------- packages and rejections

  /** The packages among the texts, in order. */
  function Delivered(texts: seq<string>): (ps: seq<seq<byte>>) {
    if texts == [] then []
    else
      var p := Payload(texts[|texts| - 1]);
      Delivered(texts[..|texts| - 1]) + if p.Some? then [p.value] else []
  }

  /** How many of the texts are no package. */
  function Rejections(texts: seq<string>): (n: nat) {
    if texts == [] then 0
    else Rejections(texts[..|texts| - 1]) + if Payload(texts[|texts| - 1]).Some? then 0 else 1
  }

  lemma {:induction false} DeliveredAppend(a: seq<string>, b: seq<string>)
    ensures Delivered(a + b) == Delivered(a) + Delivered(b) && Rejections(a + b) == Rejections(a) + Rejections(b)
    decreases |b|
  {
    hide Payload;
    if b == [] {
      assert a + b == a;
    } else {
      assert (a + b)[..|a + b| - 1] == a + b[..|b| - 1];
      DeliveredAppend(a, b[..|b| - 1]);
    }
  }

  lemma {:induction false} DeliveredAll(texts: seq<string>)
    requires AllPackages(texts)
    ensures Delivered(texts) == Payloads(texts) && Rejections(texts) == 0
    decreases |texts|
  {
    hide Payload;
    if texts != [] { DeliveredAll(texts[..|texts| - 1]); }
  }

  lemma DeliveredBad(bad: seq<string>)
    requires bad == [] || (|bad| == 1 && Payload(bad[0]) == None)
    ensures Delivered(bad) == [] && Rejections(bad) == |bad|
  {
    hide Payload;
    if bad != [] { assert bad[..0] == []; }
  }

  lemma {:induction false} NoneRejected(texts: seq<string>)
    ensures Rejections(texts) == 0 <==> AllPackages(texts)
    decreases |texts|
  {
    hide Payload;
    if texts != [] { NoneRejected(texts[..|texts| - 1]); }
  }
}
