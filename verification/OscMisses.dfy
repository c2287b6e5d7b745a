/** Which streams can make parsePkg lose a frame or move past the bytes received: an exact
    condition on what lies between the frames (osc/OscSession.cpp:72-125, 201-254). */
module OscMisses {
  import opened Options
  import opened OscFlow
  import opened OscFraming
  import opened OscRejects

  /** The session has moved past the bytes received, or what it has taken and what it can still
      take are not the texts of the stream. */
  ghost predicate Misses(input: string, steps: seq<Step>) {
    var s := PlayAll(input, steps);
    s.Session? ==> s.texts + Parse(s.flow.view[s.index..] + input[s.flow.read..]) != Parse(input)
  }

  /** The next frame can be cut: nothing before it ends the skip that starts behind a rejected
      empty text, and its first byte fits into the buffer. */
  predicate LosesNext(lead: string, items: seq<Item>) {
    items != [] &&
      var h := |Head(lead, items[0])|;
      AfterNul(Head(lead, items[0]), h) == 0 && PREFIX_LEN + h + 1 < BUFFER_SIZE
  }

  /** The least that parsing can keep before a frame: one byte, or none if a NUL is the last.
      Behind a rejected empty text, the skip may also have dropped all of it; if that does
      not lose the frame, the buffer was full to the last byte. */
  function LeastKept(h: nat, z: nat, freed: bool): nat {
    if h == z || (freed && z == 0 && PREFIX_LEN + h + 1 == BUFFER_SIZE) then 0 else 1
  }

  /** Some text is rejected, fits into the buffer, and is not both empty and right behind a NUL;
      or it is, and the frame behind it can be cut. `freed`: such a text was the last. */
  predicate Missable(lead: string, items: seq<Item>, freed: bool)
    decreases |items|
  {
    items != [] &&
      var it, h := items[0], |Head(lead, items[0])|;
      var z, next := AfterNul(Head(lead, it), h), FrameEndOf(it);
      if !Bad(it.text) then Missable(next, items[1..], false)
      else if it.text == "" && h == z then LosesNext(next, items[1..]) || Missable(next, items[1..], true)
      else LeastKept(h, z, freed) + PREFIX_LEN + |it.text| + 1 < BUFFER_SIZE
  }

  // ---------------------------------------------------------------- parsing a part of a stream

  /** The next frame of `w` starts at `h` and ends at `e`; the last NUL before it is at `z`. */
  predicate FrameIn(w: string, h: nat, e: nat, z: nat) {
    && z <= h && h + PREFIX_LEN <= e < |w|
    && FindPrefix(w, 0) == h && EndOf(w, h + PREFIX_LEN) == e && w[e] == BEL && AfterNul(w, h) == z
  }

  lemma FrameBounds(w: string, h: nat, e: nat, z: nat)
    requires FrameIn(w, h, e, z)
    ensures z <= h && h + PREFIX_LEN <= e < |w|
  {
  }

  function Max(a: nat, b: nat): nat {
    if a > b then a else b
  }

  lemma ConsumeEarly(w: string, h: nat, e: nat, z: nat, c: nat, m: nat)
    requires FrameIn(w, h, e, z) && c <= h && c <= m < h + PREFIX_LEN
    ensures m <= |w| && Consume(w[c..m]) == Leftover(Ending(w[c..m]), 0, [])
  {
    hide FindPrefix, EndOf, OccursAt, AfterNul, Consume, Ending;
    FindIn(w, h, c, m);
    ConsumeNone(w[c..m]);
  }

  lemma ConsumeWaiting(w: string, h: nat, e: nat, z: nat, c: nat, m: nat)
    requires FrameIn(w, h, e, z) && c <= h && h + PREFIX_LEN <= m <= e
    ensures Consume(w[c..m]) == Leftover(w[Max(c, z)..m], 0, [])
  {
    hide FindPrefix, EndOf, OccursAt, AfterNul, Consume;
    FindIn(w, h, c, m);
    EndIn(w, h + PREFIX_LEN, c, m);
    AfterNulIn(w, h, c, m);
    ConsumeUnfinished(w[c..m], h - c, m - c);
    SliceOfPart(w, c, m, Max(c, z) - c);
  }

  lemma ConsumeComplete(w: string, h: nat, e: nat, z: nat, c: nat, m: nat)
    requires FrameIn(w, h, e, z) && c <= h && e < m <= |w|
    ensures var text := w[h + PREFIX_LEN..e];
            Consume(w[c..m]) == if Bad(text) then Leftover(w[Max(c, z)..m], e - Max(c, z), [text])
                                else Prepend([text], Consume(w[e..m]))
  {
    hide *;
    FrameBounds(w, h, e, z);
    var v := w[c..m];
    FrameOfPart(w, h, e, z, c, m);
    ConsumeIs(v, h - c, e - c);
    TakenOfPart(w, h, e, c, m, Max(c, z));
  }

  lemma FrameOfPart(w: string, h: nat, e: nat, z: nat, c: nat, m: nat)
    requires FrameIn(w, h, e, z) && c <= h && e < m <= |w|
    ensures var v := w[c..m];
            && FindPrefix(v, 0) == h - c < |v| && h - c + PREFIX_LEN <= e - c < |v| && v[e - c] == BEL
            && EndOf(v, h - c + PREFIX_LEN) == e - c && AfterNul(v, h - c) == Max(c, z) - c && Max(c, z) <= h
  {
    hide FindPrefix, EndOf, OccursAt, AfterNul;
    FindIn(w, h, c, m);
    EndIn(w, h + PREFIX_LEN, c, m);
    AfterNulIn(w, h, c, m);
  }

  lemma TakenOfPart(w: string, h: nat, e: nat, c: nat, m: nat, z: nat)
    requires c <= z <= h && h + PREFIX_LEN <= e < m <= |w| && w[e] == BEL
    ensures var text := w[h + PREFIX_LEN..e];
            TakenFrom(w[c..m], h - c, e - c, z - c) == if Bad(text) then Leftover(w[z..m], e - z, [text])
                                                       else Prepend([text], Consume(w[e..m]))
  {
    hide Consume, Bad;
    SliceOfPart(w, c, m, z - c);
    SliceOfPart(w, c, m, e - c);
    PartOfPart(w, c, m, h + PREFIX_LEN, e);
  }

  lemma PartOfPart(w: string, c: nat, m: nat, x: nat, y: nat)
    requires c <= x <= y <= m <= |w|
    ensures w[c..m][x - c..y - c] == w[x..y]
  {
    var a, b := w[c..m][x - c..y - c], w[x..y];
    forall k | 0 <= k < y - x ensures a[k] == b[k] { assert w[c..m][x - c + k] == w[x + k]; }
  }

  // ---------------------------------------------------------------- streams that no schedule can harm

  /** Nothing before the next frame was dropped that parsing must keep. */
  predicate Tight(lead: string, items: seq<Item>, c: nat, freed: bool) {
    items != [] ==>
      var h := |Head(lead, items[0])|;
      c == h ==> LeastKept(h, AfterNul(Head(lead, items[0]), h), freed) == 0
  }

  /** The buffer `b` with its index at `k` and `rest` still to be read: in front of the next
      frame, or behind a rejected empty text. */
  ghost predicate Placed(b: string, k: nat, rest: string, lead: string, items: seq<Item>, tail: string, c: nat, freed: bool)
    requires k <= |b|
  {
    && !Missable(lead, items, freed)
    && Position(b[k..], rest, lead, items, tail, c)
    && if k == 0 then Tight(lead, items, c, freed)
       else k == PREFIX_LEN && c == 0 && freed && !LosesNext(lead, items)
  }

  /** No frame start in the view yet. */
  lemma ConsumeBefore(view: string, rest: string, lead: string, items: seq<Item>, tail: string, c: nat, freed: bool)
    requires Position(view, rest, lead, items, tail, c) && Tight(lead, items, c, freed)
    requires items != [] ==> c + |view| < |Head(lead, items[0])| + PREFIX_LEN
    ensures var c' := c + |view| - |Ending(view)|;
            && Consume(view) == Leftover(Ending(view), 0, [])
            && Position(Ending(view), rest, lead, items, tail, c') && Tight(lead, items, c', freed)
  {
    hide Position, FindPrefix, EndOf, OccursAt, AfterNul, Consume, NoFrame, Clean, PlainText, Head, Ahead, LeastKept, FrameIn;
    PositionPart(view, rest, lead, items, tail, c);
    PositionEnding(view, rest, lead, items, tail, c);
    if items == [] {
      NoneAhead(lead, tail);
      FindIn(lead + tail, |lead + tail|, c, c + |view|);
      ConsumeNone(view);
    } else {
      var h, e, z := NextIn(lead, items, tail);
      ConsumeEarly(Ahead(lead, items, tail), h, e, z, c, c + |view|);
    }
  }

  /** Where the next frame lies. */
  lemma NextIn(lead: string, items: seq<Item>, tail: string) returns (h: nat, e: nat, z: nat)
    requires FrameEnd(lead) && Clean(items) && items != []
    ensures h == |Head(lead, items[0])| && e == h + PREFIX_LEN + |items[0].text| && z == AfterNul(Head(lead, items[0]), h)
    ensures var w := Ahead(lead, items, tail);
            && FrameIn(w, h, e, z) && e < |w|
            && w[h + PREFIX_LEN..e] == items[0].text && w[e..] == Ahead(FrameEndOf(items[0]), items[1..], tail)
  {
    hide FindPrefix, EndOf, OccursAt, AfterNul, NoFrame, Clean, PlainText, Head, Ahead;
    Layout(lead, items, tail);
    h := |Head(lead, items[0])|;
    e, z := h + PREFIX_LEN + |items[0].text|, AfterNul(Head(lead, items[0]), h);
  }

  /** A frame that is not complete. */
  lemma ConsumeInside(view: string, rest: string, lead: string, items: seq<Item>, tail: string, c: nat, freed: bool)
    returns (c': nat)
    requires Position(view, rest, lead, items, tail, c) && Tight(lead, items, c, freed) && items != []
    requires var h := |Head(lead, items[0])|; h + PREFIX_LEN <= c + |view| <= h + PREFIX_LEN + |items[0].text|
    ensures var l := Consume(view);
            && l == Leftover(l.buffer, 0, [])
            && Position(l.buffer, rest, lead, items, tail, c') && Tight(lead, items, c', freed)
  {
    hide Position, FindPrefix, EndOf, OccursAt, AfterNul, Consume, NoFrame, Clean, PlainText, Head, Ahead, FrameIn;
    PositionPart(view, rest, lead, items, tail, c);
    var w := Ahead(lead, items, tail);
    var h, e, z := NextIn(lead, items, tail);
    FrameBounds(w, h, e, z);
    ConsumeWaiting(w, h, e, z, c, c + |view|);
    c' := Max(c, z);
    SliceOfPart(w, c, c + |view|, c' - c);
    PositionLater(view, rest, lead, items, tail, c, c' - c);
  }

  /** A complete frame: its text is taken, or it is rejected. */
  lemma ConsumeOver(view: string, rest: string, lead: string, items: seq<Item>, tail: string, c: nat)
    returns (view': string, from: nat)
    requires Position(view, rest, lead, items, tail, c) && items != []
    requires c + |view| > |Head(lead, items[0])| + PREFIX_LEN + |items[0].text|
    ensures Position(view', rest, FrameEndOf(items[0]), items[1..], tail, 0)
    ensures var it, h := items[0], |Head(lead, items[0])|;
            && from == Max(c, AfterNul(Head(lead, it), h)) - c && c + from <= h && c <= h
            && |view[from..]| == h - c - from + PREFIX_LEN + |it.text| + |view'|
            && view[from..][h - c - from + PREFIX_LEN + |it.text|..] == view'
            && Consume(view) == if Bad(it.text) then Leftover(view[from..], h - c - from + PREFIX_LEN + |it.text|, [it.text])
                                else Prepend([it.text], Consume(view'))
  {
    hide Position, FindPrefix, EndOf, OccursAt, AfterNul, Consume, NoFrame, Clean, PlainText, Head, Ahead, FrameIn, Bad,
         Stream, FrameEndOf, FrameEnd, Prepend;
    PositionPart(view, rest, lead, items, tail, c);
    var w, m := Ahead(lead, items, tail), c + |view|;
    var h, e, z := NextIn(lead, items, tail);
    FrameBounds(w, h, e, z);
    ConsumeComplete(w, h, e, z, c, m);
    from, view' := Max(c, z) - c, w[e..m];
    OverParts(w, c, m, from, e);
    assert h - c - from + PREFIX_LEN + |items[0].text| == e - c - from;
    PositionNext(w, lead, items, tail, e, m);
  }

  lemma OverParts(w: string, c: nat, m: nat, from: nat, e: nat)
    requires c + from <= e <= m <= |w|
    ensures w[c..m][from..] == w[c + from..m] && w[c + from..m][e - c - from..] == w[e..m]
    ensures |w[c + from..m]| == e - c - from + |w[e..m]|
  {
  }

  lemma TextsFirst(items: seq<Item>)
    requires items != []
    ensures Texts(items) == [items[0].text] + Texts(items[1..])
  {
  }

  lemma HeadStarts(lead: string, items: seq<Item>)
    requires items != [] && lead != []
    ensures Head(lead, items[0]) != []
  {
  }

  /** A frame that was rejected, from which no schedule is harmed: it was empty and right
      behind a NUL. */
  lemma RejectedHarmless(n: nat, lead: string, items: seq<Item>, c: nat, freed: bool)
    requires items != [] && Bad(items[0].text) && !Missable(lead, items, freed) && Tight(lead, items, c, freed)
    requires c <= |Head(lead, items[0])| && n < BUFFER_SIZE && n > |Head(lead, items[0])| - c + PREFIX_LEN + |items[0].text|
    ensures var it, h := items[0], |Head(lead, items[0])|;
            && it.text == "" && AfterNul(Head(lead, it), h) == h
            && !Missable(FrameEndOf(it), items[1..], true) && !LosesNext(FrameEndOf(it), items[1..])
  {
    hide Bad, LosesNext, Head, AfterNul;
  }

  /** Parsing from index 0 in a stream that no schedule can harm. */
  lemma {:induction false} ConsumePlaced(view: string, rest: string, lead: string, items: seq<Item>, tail: string, c: nat,
                                         freed: bool)
    returns (lead': string, items': seq<Item>, c': nat, freed': bool)
    requires Position(view, rest, lead, items, tail, c) && Tight(lead, items, c, freed)
    requires !Missable(lead, items, freed) && |view| < BUFFER_SIZE
    ensures var l := Consume(view);
            && Placed(l.buffer, l.index, rest, lead', items', tail, c', freed') && l.texts + Texts(items') == Texts(items)
    decreases |items|
  {
    hide Position, AfterNul, Consume, Head, Bad, Tight, LosesNext, Missable, Texts, Ending;
    lead', items', c', freed' := lead, items, c, freed;
    assert [] + Texts(items) == Texts(items);
    if items == [] || c + |view| < |Head(lead, items[0])| + PREFIX_LEN {
      ConsumeBefore(view, rest, lead, items, tail, c, freed);
      c' := c + |view| - |Ending(view)|;
      assert Ending(view)[0..] == Ending(view);
    } else if c + |view| <= |Head(lead, items[0])| + PREFIX_LEN + |items[0].text| {
      c' := ConsumeInside(view, rest, lead, items, tail, c, freed);
      assert Consume(view).buffer[0..] == Consume(view).buffer;
    } else {
      lead', items', c', freed' := ConsumeOn(view, rest, lead, items, tail, c, freed);
    }
  }

  lemma {:induction false} ConsumeOn(view: string, rest: string, lead: string, items: seq<Item>, tail: string, c: nat,
                                     freed: bool)
    returns (lead': string, items': seq<Item>, c': nat, freed': bool)
    requires Position(view, rest, lead, items, tail, c) && Tight(lead, items, c, freed)
    requires !Missable(lead, items, freed) && |view| < BUFFER_SIZE
    requires items != [] && c + |view| > |Head(lead, items[0])| + PREFIX_LEN + |items[0].text|
    ensures var l := Consume(view);
            && Placed(l.buffer, l.index, rest, lead', items', tail, c', freed') && l.texts + Texts(items') == Texts(items)
    decreases |items|, 0
  {
    hide Position, AfterNul, Consume, Head, Bad, Tight, LosesNext, Missable, Texts, Ending;
    var it := items[0];
    var view', from := ConsumeOver(view, rest, lead, items, tail, c);
    TextsFirst(items);
    lead', items', c', freed' := FrameEndOf(it), items[1..], 0, true;
    if Bad(it.text) {
      RejectedHarmless(|view|, lead, items, c, freed);
    } else {
      GoodHarmless(lead, items, freed);
      lead', items', c', freed' := ConsumePlaced(view', rest, FrameEndOf(it), items[1..], tail, 0, false);
      assert [it.text] + (Consume(view').texts + Texts(items')) == [it.text] + Consume(view').texts + Texts(items');
    }
  }

  lemma GoodHarmless(lead: string, items: seq<Item>, freed: bool)
    requires items != [] && !Bad(items[0].text) && !Missable(lead, items, freed)
    ensures !Missable(FrameEndOf(items[0]), items[1..], false) && Tight(FrameEndOf(items[0]), items[1..], 0, false)
  {
    hide Bad, LosesNext, Head, AfterNul;
    if |items| > 1 { HeadStarts(FrameEndOf(items[0]), items[1..]); }
  }

  /** What the skip from behind a rejected empty text leaves, if the next frame cannot be cut. */
  lemma SkippedPlace(u: string, w: string, h: nat, z: nat)
    requires FindPrefix(w, 0) == h < |w| && AfterNul(w, h) == z && |u| <= |w| && u == w[0..|u|]
    requires PREFIX_LEN + |u| < BUFFER_SIZE && (z == 0 ==> PREFIX_LEN + h + 1 >= BUFFER_SIZE)
    ensures !PrefixAhead(u)
    ensures var c := |u| - |BehindNul(u)|;
            && BehindNul(u) == u[c..] && c <= h && (c == h ==> LeastKept(h, z, true) == 0)
  {
    hide FindPrefix, OccursAt, AfterNul, FirstNul;
    FindIn(w, h, 0, |u|);
    var n := FirstNul(u);
    if n < |u| {
      assert w[n] == NUL;
      assert n < h;
      assert n < z;
    } else {
      assert forall k :: 0 <= k < |u| ==> w[k] == u[k] != NUL;
      assert z == 0 || z > |u|;
    }
  }

  lemma SkippedPlaced(u: string, rest: string, lead: string, items: seq<Item>, tail: string)
    returns (c: nat)
    requires Position(u, rest, lead, items, tail, 0) && !LosesNext(lead, items) && PREFIX_LEN + |u| < BUFFER_SIZE
    ensures !PrefixAhead(u) && Position(BehindNul(u), rest, lead, items, tail, c) && Tight(lead, items, c, true)
  {
    hide Position, FindPrefix, EndOf, OccursAt, AfterNul, NoFrame, Clean, PlainText, Head, Ahead, LeastKept, BehindNul, FirstNul;
    PositionPart(u, rest, lead, items, tail, 0);
    var w := Ahead(lead, items, tail);
    c := |u| - |BehindNul(u)|;
    BehindIsPart(u);
    if items == [] {
      NoneAhead(lead, tail);
      FindIn(lead + tail, |lead + tail|, 0, |u|);
    } else {
      var h, e, z := NextIn(lead, items, tail);
      FrameBounds(w, h, e, z);
      SkippedPlace(u, w, h, z);
    }
    PositionLater(u, rest, lead, items, tail, 0, c);
  }

  lemma BehindIsPart(u: string)
    ensures BehindNul(u) == u[|u| - |BehindNul(u)|..]
  {
  }

  /** One parse in a stream that no schedule can harm. */
  lemma ParsePlaced(b: string, k: nat, rest: string, lead: string, items: seq<Item>, tail: string, c: nat, freed: bool)
    returns (lead': string, items': seq<Item>, c': nat, freed': bool)
    requires k <= |b| < BUFFER_SIZE && Placed(b, k, rest, lead, items, tail, c, freed)
    ensures var r := Parsed(b, k);
            && r.Pass? && Placed(r.left.buffer, r.left.index, rest, lead', items', tail, c', freed')
            && r.left.texts + Texts(items') == Texts(items)
  {
    hide Position, Head, Tight, LosesNext, Missable, Texts, Consume, FirstNul, FindPrefix, BehindNul, PrefixAhead, EndsInPrefix,
         FromIndex;
    if k == 0 {
      assert b[0..] == b;
      lead', items', c', freed' := ConsumePlaced(b, rest, lead, items, tail, c, freed);
    } else {
      var c1 := SkippedPlaced(b[k..], rest, lead, items, tail);
      lead', items', c', freed' := ConsumePlaced(BehindNul(b[k..]), rest, lead, items, tail, c1, freed);
    }
  }

  lemma ReadPlaced(input: string, f: Flow, n: nat, k: nat, lead: string, items: seq<Item>, tail: string, c: nat, freed: bool)
    requires f.read <= |input| && k <= |f.view| && Placed(f.view, k, input[f.read..], lead, items, tail, c, freed)
    ensures var g := Next(input, f, ReadInput(n)); k <= |g.view| && Placed(g.view, k, input[g.read..], lead, items, tail, c, freed)
  {
    hide Position, Head, Tight, LosesNext, Missable, Next;
    var m := NextView(input, f, n);
    PositionRead(f.view[k..], input[f.read..], lead, items, tail, c, m);
    assert (f.view + input[f.read..][..m])[k..] == f.view[k..] + input[f.read..][..m];
  }

  ghost predicate Harmless(s: Session, input: string, all: seq<Item>, lead: string, items: seq<Item>, tail: string, c: nat,
                           freed: bool)
    requires InBuffer(input, s)
  {
    && s.Session? && s.texts + Texts(items) == Texts(all)
    && Placed(s.flow.view, s.index, input[s.flow.read..], lead, items, tail, c, freed)
  }

  lemma AfterHarmless(s: Session, step: Step, input: string, all: seq<Item>, lead: string, items: seq<Item>, tail: string,
                      c: nat, freed: bool)
    returns (lead': string, items': seq<Item>, c': nat, freed': bool)
    requires InBuffer(input, s) && Harmless(s, input, all, lead, items, tail, c, freed)
    ensures Harmless(After(input, s, step), input, all, lead', items', tail, c', freed')
  {
    hide Placed, Parsed, Texts;
    lead', items', c', freed' := lead, items, c, freed;
    match step {
      case ReadInput(n) => ReadPlaced(input, s.flow, n, s.index, lead, items, tail, c, freed);
      case RunParse =>
        lead', items', c', freed' := ParsePlaced(s.flow.view, s.index, input[s.flow.read..], lead, items, tail, c, freed);
        var more := Parsed(s.flow.view, s.index).left.texts;
        assert s.texts + (more + Texts(items')) == s.texts + more + Texts(items');
    }
  }

  lemma {:induction false} PlayHarmless(items: seq<Item>, tail: string, steps: seq<Step>)
    returns (lead': string, items': seq<Item>, c': nat, freed': bool)
    requires Clean(items) && NoFrame(tail) && !Missable([], items, false)
    ensures var input := Stream(items, tail); Harmless(PlayAll(input, steps), input, items, lead', items', tail, c', freed')
    decreases |steps|
  {
    hide NoFrame, Clean, Stream, Missable, Harmless, After;
    var input := Stream(items, tail);
    if steps == [] {
      lead', items', c', freed' := [], items, 0, false;
      StartsHarmless(items, tail);
    } else {
      lead', items', c', freed' := PlayHarmless(items, tail, steps[..|steps| - 1]);
      lead', items', c', freed' :=
        AfterHarmless(PlayAll(input, steps[..|steps| - 1]), steps[|steps| - 1], input, items, lead', items', tail, c', freed');
    }
  }

  lemma StartsHarmless(items: seq<Item>, tail: string)
    requires Clean(items) && NoFrame(tail) && !Missable([], items, false)
    ensures var input := Stream(items, tail); Harmless(PlayAll(input, []), input, items, [], items, tail, 0, false)
  {
    hide NoFrame, Clean, Stream, Missable, Head, Texts, AfterNul, Position;
    var input := Stream(items, tail);
    PositionStart(items, tail);
    assert input[0..] == input;
    assert PlayAll(input, []).flow.view[0..] == [];
    assert [] + Texts(items) == Texts(items);
  }

  /** What is still to come, from any place before the next frame. */
  lemma TextsAhead(view: string, rest: string, lead: string, items: seq<Item>, tail: string, c: nat)
    requires Position(view, rest, lead, items, tail, c)
    ensures Parse(view + rest) == Texts(items)
  {
    hide Position, FindPrefix, OccursAt, NoFrame, Clean, PlainText, Head, Parse, Texts, AfterNul, EndOf, Stream;
    PositionPart(view, rest, lead, items, tail, c);
    var w := Ahead(lead, items, tail);
    ParseStream(lead, items, tail);
    if items == [] { NoneAhead(lead, tail); } else { Layout(lead, items, tail); }
    ParseSkip(w, c);
    PositionAll(view, rest, lead, items, tail, c);
  }

  lemma PositionAll(view: string, rest: string, lead: string, items: seq<Item>, tail: string, c: nat)
    requires Position(view, rest, lead, items, tail, c)
    ensures c <= |Ahead(lead, items, tail)| && view + rest == Ahead(lead, items, tail)[c..]
  {
  }

  /** Where no text is rejected that matters, every schedule delivers every text. */
  lemma NeverMisses(items: seq<Item>, tail: string, steps: seq<Step>)
    requires Clean(items) && NoFrame(tail) && !Missable([], items, false)
    ensures !Misses(Stream(items, tail), steps)
  {
    hide NoFrame, Clean, Stream, Missable, PlayAll, Parse, Texts, Position, Tight, LosesNext;
    var lead', items', c', freed' := PlayHarmless(items, tail, steps);
    var input := Stream(items, tail);
    var s := PlayAll(input, steps);
    TextsAhead(s.flow.view[s.index..], input[s.flow.read..], lead', items', tail, c');
    ParseStream([], items, tail);
    assert [] + input == input;
  }

  // ---------------------------------------------------------------- the schedules that do harm

  /** The index is at `k`, and the buffer holds bytes `a` to `m` of `w`, the end of the input. */
  predicate Stands(s: Session, input: string, w: string, a: nat, m: nat, k: nat, texts: seq<string>) {
    s.Session? && s.index == k && s.texts == texts && Holds(s.flow, input, w, a, m)
  }

  lemma StandsHolds(s: Session, input: string, w: string, a: nat, m: nat, k: nat, texts: seq<string>)
    requires Stands(s, input, w, a, m, k, texts)
    ensures a <= m <= |w| && s == Session(Flow(w[a..m], |input| - |w| + m), k, texts, s.lost) && |w| <= |input|
    ensures input[|input| - |w| + m..] == w[m..]
  {
    SliceOfPart(input, |input| - |w|, |input|, m);
  }

  lemma StandsRead(input: string, pre: seq<Step>, w: string, a: nat, m: nat, k: nat, texts: seq<string>, n: nat)
    requires Stands(PlayAll(input, pre), input, w, a, m, k, texts) && m + n <= |w| && n <= READ_SIZE && GuardOpen(m - a)
    ensures Stands(PlayAll(input, pre + [ReadInput(n)]), input, w, a, m + n, k, texts)
  {
    hide PlayAll;
    PlayAllOne(input, pre, ReadInput(n));
    ReadBytes(PlayAll(input, pre).flow, input, w, a, m, n);
  }

  lemma ReadBytes(f: Flow, input: string, w: string, a: nat, m: nat, n: nat)
    requires Holds(f, input, w, a, m) && m + n <= |w| && n <= READ_SIZE && GuardOpen(m - a)
    ensures Holds(Next(input, f, ReadInput(n)), input, w, a, m + n)
  {
    var o := |input| - |w|;
    assert input[o + m..o + m + n] == w[m..m + n];
    assert w[a..m + n] == w[a..m] + w[m..m + n];
  }

  /** A parse that leaves bytes `a'` to `m`. */
  lemma StandsParse(input: string, pre: seq<Step>, w: string, a: nat, m: nat, k: nat, texts: seq<string>,
                    a': nat, k': nat, more: seq<string>)
    requires Stands(PlayAll(input, pre), input, w, a, m, k, texts) && k <= m - a && a' <= m
    requires var r := Parsed(w[a..m], k); r.Pass? && r.left == Leftover(w[a'..m], k', more)
    ensures Stands(PlayAll(input, pre + [RunParse]), input, w, a', m, k', texts + more)
  {
    hide PlayAll, Parsed;
    PlayAllOne(input, pre, RunParse);
  }

  lemma ConsumeStands(input: string, pre: seq<Step>, w: string, a: nat, m: nat, texts: seq<string>,
                      a': nat, k': nat, more: seq<string>)
    requires Stands(PlayAll(input, pre), input, w, a, m, 0, texts) && a <= m && a' <= m <= |w|
    requires Consume(w[a..m]) == Leftover(w[a'..m], k', more)
    ensures Stands(PlayAll(input, pre + [RunParse]), input, w, a', m, k', texts + more)
  {
    hide PlayAll, Parsed, Consume, Stands;
    ParsedStart(w[a..m]);
    StandsParse(input, pre, w, a, m, 0, texts, a', k', more);
  }

  lemma {:induction false} PourStands(input: string, pre: seq<Step>, w: string, a: nat, m: nat, k: nat, texts: seq<string>, n: nat)
    requires Stands(PlayAll(input, pre), input, w, a, m, k, texts)
    requires a <= m && m + n <= |w| && m + n - a <= BUFFER_SIZE - READ_SIZE
    ensures Stands(PlayAll(input, pre + Pour(n)), input, w, a, m + n, k, texts)
    decreases n
  {
    hide Stands, PlayAll;
    if n == 0 {
      assert pre + Pour(0) == pre;
    } else {
      PourStands(input, pre, w, a, m, k, texts, n - 1);
      StandsRead(input, pre + Pour(n - 1), w, a, m + n - 1, k, texts, 1);
      assert pre + Pour(n) == pre + Pour(n - 1) + [ReadInput(1)];
    }
  }

  /** Reading on without a parse, up to the size of the buffer. */
  lemma Fill(input: string, pre: seq<Step>, w: string, a: nat, m: nat, k: nat, texts: seq<string>, to: nat)
    returns (steps: seq<Step>)
    requires Stands(PlayAll(input, pre), input, w, a, m, k, texts) && a <= m <= to <= |w|
    requires m - a < BUFFER_SIZE - READ_SIZE && to - a < BUFFER_SIZE
    ensures Stands(PlayAll(input, steps), input, w, a, to, k, texts)
  {
    hide Stands, PlayAll, Pour;
    var full := a + BUFFER_SIZE - READ_SIZE - 1;
    if to <= full {
      steps := pre + Pour(to - m);
      PourStands(input, pre, w, a, m, k, texts, to - m);
    } else {
      PourStands(input, pre, w, a, m, k, texts, full - m);
      StandsRead(input, pre + Pour(full - m), w, a, full, k, texts, to - full);
      steps := pre + Pour(full - m) + [ReadInput(to - full)];
    }
  }

  /** What is in the buffer after reading up to `m` byte by byte from `c` on, with parses. */
  function Since(c: nat, h: nat, z: nat, m: nat): (a: nat)
    requires z <= h && c <= h && c <= m
    ensures a <= h && a <= m
  {
    Max(c, From(h, z, m))
  }

  lemma ConsumeDrip(w: string, h: nat, e: nat, z: nat, c: nat, m: nat)
    requires FrameIn(w, h, e, z) && c <= h && c <= m < e
    ensures z <= h && m + 1 <= |w| && Consume(w[Since(c, h, z, m)..m + 1]) == Leftover(w[Since(c, h, z, m + 1)..m + 1], 0, [])
    ensures m <= h + PREFIX_LEN + MAX_ENCODED ==> GuardOpen(m - Since(c, h, z, m))
  {
    hide FrameIn, Consume, Ending, Since;
    FrameBounds(w, h, e, z);
    var a := Since(c, h, z, m);
    SinceNext(c, h, z, m);
    if m + 1 < h + PREFIX_LEN {
      ConsumeEarly(w, h, e, z, a, m + 1);
      EndingOfPart(w, a, m + 1);
    } else {
      ConsumeWaiting(w, h, e, z, a, m + 1);
    }
  }

  lemma SinceNext(c: nat, h: nat, z: nat, m: nat)
    requires z <= h && c <= h && c <= m
    ensures var a := Since(c, h, z, m);
            && Since(c, h, z, m + 1) == (if m + 1 >= h + PREFIX_LEN then Max(a, z)
                                         else if m + 1 - a <= PREFIX_LEN then a else m + 1 - PREFIX_LEN)
            && (m <= h + PREFIX_LEN + MAX_ENCODED ==> GuardOpen(m - a))
  {
  }

  lemma {:induction false} DripStands(input: string, pre: seq<Step>, w: string, h: nat, e: nat, z: nat, c: nat, m: nat,
                                      texts: seq<string>, n: nat)
    requires FrameIn(w, h, e, z) && z <= h && c <= h && c <= m && m + n <= e && m + n <= h + PREFIX_LEN + MAX_ENCODED
    requires Stands(PlayAll(input, pre), input, w, Since(c, h, z, m), m, 0, texts)
    ensures Stands(PlayAll(input, pre + Drip(n)), input, w, Since(c, h, z, m + n), m + n, 0, texts)
    decreases n
  {
    hide Stands, PlayAll, FrameIn, Since, Consume;
    if n == 0 {
      assert pre + Drip(0) == pre;
    } else {
      FrameBounds(w, h, e, z);
      DripStands(input, pre, w, h, e, z, c, m, texts, n - 1);
      var before, at := pre + Drip(n - 1), m + n - 1;
      ConsumeDrip(w, h, e, z, c, at);
      StandsRead(input, before, w, Since(c, h, z, at), at, 0, texts, 1);
      ConsumeStands(input, before + [ReadInput(1)], w, Since(c, h, z, at), at + 1, texts, Since(c, h, z, at + 1), 0, []);
      assert texts + [] == texts;
      assert pre + Drip(n) == before + [ReadInput(1)] + [RunParse];
    }
  }

  lemma SinceGuard(c: nat, h: nat, z: nat, m: nat)
    requires z <= h && c <= h && c <= m <= h + PREFIX_LEN + MAX_ENCODED
    ensures GuardOpen(m - Since(c, h, z, m))
  {
  }

  /** The rest of a good frame, byte by byte: its text is taken, and its end stays. */
  lemma TakeGood(input: string, pre: seq<Step>, w: string, h: nat, e: nat, z: nat, c: nat, m: nat, texts: seq<string>)
    returns (steps: seq<Step>)
    requires FrameIn(w, h, e, z) && z <= h && c <= h && c <= m <= h && h + PREFIX_LEN <= e < |w|
    requires !Bad(w[h + PREFIX_LEN..e]) && e <= h + PREFIX_LEN + MAX_ENCODED
    requires Stands(PlayAll(input, pre), input, w, Since(c, h, z, m), m, 0, texts)
    ensures Stands(PlayAll(input, steps), input, w[e..], 0, 1, 0, texts + [w[h + PREFIX_LEN..e]])
  {
    hide Stands, PlayAll, FrameIn, Since, Consume, Bad;
    DripStands(input, pre, w, h, e, z, c, m, texts, e - m);
    var a, before := Since(c, h, z, e), pre + Drip(e - m);
    SinceGuard(c, h, z, e);
    StandsRead(input, before, w, a, e, 0, texts, 1);
    ConsumeComplete(w, h, e, z, a, e + 1);
    ConsumeTiny(w[e..e + 1]);
    ConsumeStands(input, before + [ReadInput(1)], w, a, e + 1, texts, e, 0, [w[h + PREFIX_LEN..e]]);
    steps := before + [ReadInput(1)] + [RunParse];
    StandsLater(PlayAll(input, steps), input, w, e, e + 1, 0, texts + [w[h + PREFIX_LEN..e]], e);
  }

  lemma StandsLater(s: Session, input: string, w: string, a: nat, m: nat, k: nat, texts: seq<string>, e: nat)
    requires Stands(s, input, w, a, m, k, texts) && e <= a <= m <= |w|
    ensures Stands(s, input, w[e..], a - e, m - e, k, texts)
  {
    assert input[|input| - |w|..][e..] == input[|input| - |w[e..]|..];
    assert w[e..][a - e..m - e] == w[a..m];
  }

  /** A frame whose text is rejected: it stays in the buffer from `a` on, and the index is on
      its end, the last byte read. */
  lemma Reject(input: string, pre: seq<Step>, w: string, h: nat, e: nat, z: nat, c: nat, m: nat, texts: seq<string>)
    returns (steps: seq<Step>)
    requires FrameIn(w, h, e, z) && z <= h && c <= h && c <= m <= h && h + PREFIX_LEN <= e < |w|
    requires Bad(w[h + PREFIX_LEN..e])
    requires Stands(PlayAll(input, pre), input, w, Since(c, h, z, m), m, 0, texts)
    requires e + 1 - Since(c, h, z, h + PREFIX_LEN) < BUFFER_SIZE
    ensures var a := Since(c, h, z, h + PREFIX_LEN);
            Stands(PlayAll(input, steps), input, w, a, e + 1, e - a, texts + [w[h + PREFIX_LEN..e]])
  {
    hide Stands, PlayAll, FrameIn, Since, Consume, Bad;
    DripStands(input, pre, w, h, e, z, c, m, texts, h + PREFIX_LEN - m);
    var a := Since(c, h, z, h + PREFIX_LEN);
    SinceGuard(c, h, z, h + PREFIX_LEN);
    SinceBehind(c, h, z);
    steps := Fill(input, pre + Drip(h + PREFIX_LEN - m), w, a, h + PREFIX_LEN, 0, texts, e + 1);
    ConsumeComplete(w, h, e, z, a, e + 1);
    ConsumeStands(input, steps, w, a, e + 1, texts, a, e - a, [w[h + PREFIX_LEN..e]]);
    steps := steps + [RunParse];
  }

  lemma SinceBehind(c: nat, h: nat, z: nat)
    requires z <= h && c <= h
    ensures z <= Since(c, h, z, h + PREFIX_LEN) == Max(c, if h > z then h - 1 else h) <= h
  {
  }

  /** Parsing again when nothing has come behind a rejected text. */
  lemma ParsedAtEnd(b: string)
    requires PREFIX_LEN < |b| && b[|b| - 1] == BEL
    ensures var r := Parsed(b, |b| - 1);
            if |b| - 1 > PREFIX_LEN then r == Past else r.Pass? && r.left == Leftover([], 0, [])
  {
    hide Consume;
    var u := b[|b| - 1..];
    assert u == [BEL];
    ShortHoldsNone(u);
    assert FirstNul(u) == 1 by { assert u[1..] == []; }
    ConsumeTiny([]);
  }

  /** A rejected text that is not empty, or behind which a byte was kept: the next parse
      passes the end. */
  lemma RunPast(input: string, pre: seq<Step>, w: string, a: nat, e: nat, texts: seq<string>) returns (steps: seq<Step>)
    requires a + PREFIX_LEN < e < |w| && w[e] == BEL && Stands(PlayAll(input, pre), input, w, a, e + 1, e - a, texts)
    ensures PlayAll(input, steps).PastEnd?
  {
    hide PlayAll, Parsed;
    ParsedAtEnd(w[a..e + 1]);
    PlayAllOne(input, pre, RunParse);
    steps := pre + [RunParse];
  }

  /** Behind a rejected empty text, `n` bytes are read, in which no frame starts and there is no
      NUL: parsing drops them. */
  lemma SkipAll(input: string, pre: seq<Step>, w: string, h: nat, texts: seq<string>, n: nat) returns (steps: seq<Step>)
    requires h + PREFIX_LEN + n <= |w| && 1 <= n && PREFIX_LEN + n < BUFFER_SIZE
    requires Stands(PlayAll(input, pre), input, w, h, h + PREFIX_LEN + 1, PREFIX_LEN, texts)
    requires var u := w[h + PREFIX_LEN..h + PREFIX_LEN + n]; FindPrefix(u, 0) == |u| && FirstNul(u) == |u|
    ensures Stands(PlayAll(input, steps), input, w, h + PREFIX_LEN + n, h + PREFIX_LEN + n, 0, texts)
  {
    hide Stands, PlayAll, Parsed, FindPrefix, FirstNul;
    var m := h + PREFIX_LEN + n;
    steps := Fill(input, pre, w, h, h + PREFIX_LEN + 1, PREFIX_LEN, texts, m);
    SliceOfPart(w, h, m, PREFIX_LEN);
    ParsedNothing(w[h..m]);
    StandsParse(input, steps, w, h, m, PREFIX_LEN, texts, m, 0, []);
    assert texts + [] == texts;
    steps := steps + [RunParse];
  }

  lemma ParsedNothing(b: string)
    requires PREFIX_LEN <= |b|
    requires var u := b[PREFIX_LEN..]; FindPrefix(u, 0) == |u| && FirstNul(u) == |u|
    ensures var r := Parsed(b, PREFIX_LEN); r.Pass? && r.left == Leftover([], 0, [])
  {
    hide Consume, FindPrefix, FirstNul;
    ConsumeTiny([]);
  }

  /** A reader that has lost the first byte of a frame does not get its text. */
  lemma LostDiffers(w: string, h: nat, e: nat, z: nat)
    requires FrameIn(w, h, e, z)
    ensures h < |w| && Parse(w[h + 1..]) != Parse(w)
  {
    hide FrameIn, FindPrefix, Parse;
    FrameBounds(w, h, e, z);
    var q := FindPrefix(w, h + 1);
    FrameText(w, h, e, z);
    if q >= e {
      LostWhole(w, h + 1, e);
      LongerDiffers(w[h + PREFIX_LEN..e], Parse(w[e..]));
    } else {
      var inner := LostPart(w, h, e, z, q);
      FirstDiffers(w[h + PREFIX_LEN..e], inner, Parse(w[e..]));
    }
  }

  lemma FrameText(w: string, h: nat, e: nat, z: nat)
    requires FrameIn(w, h, e, z)
    ensures h + PREFIX_LEN <= e <= |w| && Parse(w) == [w[h + PREFIX_LEN..e]] + Parse(w[e..])
  {
    hide FindPrefix, EndOf, OccursAt, AfterNul, Parse;
    ParseOne(w, h, e);
  }

  lemma LongerDiffers(text: string, texts: seq<string>)
    ensures texts != [text] + texts
  {
    assert |[text] + texts| == |texts| + 1;
  }

  lemma FirstDiffers(text: string, inner: string, texts: seq<string>)
    requires |inner| < |text|
    ensures [inner] + texts != [text] + texts
  {
    assert ([inner] + texts)[0] == inner && ([text] + texts)[0] == text;
  }

  /** No frame starts before the end of the one that was cut. */
  lemma LostWhole(w: string, from: nat, e: nat)
    requires from <= e <= |w| && FindPrefix(w, from) >= e
    ensures Parse(w[from..]) == Parse(w[e..])
  {
    hide Parse, FindPrefix, OccursAt;
    NoneUpTo(w, from, e);
    ParseSkip(w[from..], e - from);
    SliceOfPart(w, from, |w|, e - from);
  }

  /** One starts inside its text, and takes a part of it. */
  lemma LostPart(w: string, h: nat, e: nat, z: nat, q: nat) returns (inner: string)
    requires FrameIn(w, h, e, z) && h + PREFIX_LEN <= e && h < |w| && q == FindPrefix(w, h + 1) < e
    ensures |inner| < e - h - PREFIX_LEN && Parse(w[h + 1..]) == [inner] + Parse(w[e..])
  {
    hide FindPrefix, EndOf, OccursAt, AfterNul, Parse;
    ShorterText(w, h, e, q);
    var r := w[h + 1..];
    FindShift(w, h + 1, 0);
    EndShift(w, h + 1, q + PREFIX_LEN - h - 1);
    ParseOne(r, q - h - 1, e - h - 1);
    SliceOfPart(w, h + 1, |w|, e - h - 1);
    inner := r[q - h - 1 + PREFIX_LEN..e - h - 1];
  }

  lemma NoneUpTo(w: string, from: nat, e: nat)
    requires from <= e <= |w| && FindPrefix(w, from) >= e
    ensures forall q :: 0 <= q < e - from ==> !OccursAt(w[from..], q)
  {
    hide OccursAt;
    forall q | 0 <= q < e - from ensures !OccursAt(w[from..], q) { OccursShift(w, from, q); }
  }

  /** A frame start inside a text. */
  lemma ShorterText(w: string, h: nat, e: nat, q: nat)
    requires h < q < e < |w| && OccursAt(w, q) && w[e] == BEL && h + PREFIX_LEN <= e && EndOf(w, h + PREFIX_LEN) == e
    ensures q + PREFIX_LEN <= e && EndOf(w, q + PREFIX_LEN) == e
  {
    hide OccursAt;
    PrefixLetters();
    if e < q + PREFIX_LEN {
      OccursLetter(w, q, e - q);
    } else {
      EndLater(w, h + PREFIX_LEN, q + PREFIX_LEN);
    }
  }

  lemma {:induction false} EndLater(w: string, x: nat, y: nat)
    requires x <= y <= |w| && y <= EndOf(w, x)
    ensures EndOf(w, y) == EndOf(w, x)
    decreases y - x
  {
    if x < y { EndLater(w, x + 1, y); }
  }

  /** Bytes before the next frame's second, where no NUL stands before it. */
  lemma NothingIn(w: string, h: nat, e: nat, n: nat)
    requires FrameIn(w, h, e, 0) && n <= h + 1
    ensures n <= |w| && var u := w[..n]; FindPrefix(u, 0) == |u| && FirstNul(u) == |u|
  {
    PrefixLetters();
    hide FindPrefix, EndOf, OccursAt, AfterNul, FirstNul, PREFIX;
    FindIn(w, h, 0, n);
    OccursLetter(w, h, 0);
    assert w[0..n] == w[..n];
    var u := w[..n];
    assert forall k :: 0 <= k < n ==> u[k] == w[k] != NUL;
  }

  /** The next frame loses its first byte. */
  lemma Lose(input: string, pre: seq<Step>, w: string, h: nat, texts: seq<string>, w2: string, h2: nat, e2: nat)
    returns (steps: seq<Step>)
    requires h + PREFIX_LEN <= |w| && w2 == w[h + PREFIX_LEN..] && FrameIn(w2, h2, e2, 0)
    requires PREFIX_LEN + h2 + 1 < BUFFER_SIZE && Parse(input) == texts + Parse(w2)
    requires Stands(PlayAll(input, pre), input, w, h, h + PREFIX_LEN + 1, PREFIX_LEN, texts)
    ensures Misses(input, steps)
  {
    hide Stands, PlayAll, Parse, FrameIn, FindPrefix, FirstNul;
    FrameBounds(w2, h2, e2, 0);
    NothingIn(w2, h2, e2, h2 + 1);
    var e, m := h + PREFIX_LEN, h + PREFIX_LEN + h2 + 1;
    FrontOf(w, e, w2, h2 + 1);
    steps := SkipAll(input, pre, w, h, texts, h2 + 1);
    StandsHolds(PlayAll(input, steps), input, w, m, m, 0, texts);
    LostDiffers(w2, h2, e2, 0);
    SliceOfPart(w, e, |w|, h2 + 1);
    NothingMissed(input, steps, w[m..], texts, Parse(w2));
  }

  lemma FrontOf(w: string, e: nat, w2: string, n: nat)
    requires e <= |w| && w2 == w[e..] && n <= |w2|
    ensures w2[..n] == w[e..e + n]
  {
  }

  lemma NothingMissed(input: string, steps: seq<Step>, rest: string, texts: seq<string>, ahead: seq<string>)
    requires var s := PlayAll(input, steps);
             s.Session? && s.flow.view == [] && s.index == 0 && s.texts == texts && input[s.flow.read..] == rest
    requires Parse(input) == texts + ahead && Parse(rest) != ahead
    ensures Misses(input, steps)
  {
    hide PlayAll, Parse;
    var s := PlayAll(input, steps);
    assert s.flow.view[0..] + rest == rest;
    assert (texts + Parse(rest))[|texts|..] == Parse(rest) && (texts + ahead)[|texts|..] == ahead;
  }

  /** The one frame that fits into the buffer only if nothing before it is kept: its last byte
      is the last that the buffer can hold. */
  predicate NeedsAll(lead: string, items: seq<Item>) {
    items != [] &&
      var it, h := items[0], |Head(lead, items[0])|;
      && Bad(it.text) && h > 0 && AfterNul(Head(lead, it), h) == 0 && PREFIX_LEN + h + 1 == BUFFER_SIZE
      && PREFIX_LEN + |it.text| + 2 == BUFFER_SIZE
  }

  /** Before the next frame: `c` bytes were dropped, `m` read. */
  ghost predicate Before(input: string, pre: seq<Step>, lead: string, items: seq<Item>, tail: string, c: nat, m: nat,
                         texts: seq<string>) {
    && FrameEnd(lead) && Clean(items) && NoFrame(tail) && c <= m
    && (items != [] ==> m <= |Head(lead, items[0])|)
    && Stands(PlayAll(input, pre), input, Ahead(lead, items, tail), c, m, 0, texts)
    && Parse(input) == texts + Parse(Ahead(lead, items, tail))
  }

  /** Behind a rejected empty text, of which nothing before its prefix was kept. */
  ghost predicate Behind(input: string, pre: seq<Step>, w: string, h: nat, lead: string, items: seq<Item>, tail: string,
                         texts: seq<string>) {
    && FrameEnd(lead) && lead != [] && Clean(items) && NoFrame(tail)
    && h + PREFIX_LEN < |w| && w[h + PREFIX_LEN..] == Ahead(lead, items, tail) && w[h + PREFIX_LEN] == BEL
    && Stands(PlayAll(input, pre), input, w, h, h + PREFIX_LEN + 1, PREFIX_LEN, texts)
    && Parse(input) == texts + Parse(Ahead(lead, items, tail))
  }

  /** A good frame is taken. */
  lemma GoodFirst(input: string, pre: seq<Step>, lead: string, items: seq<Item>, tail: string, c: nat, m: nat,
                  texts: seq<string>)
    returns (steps: seq<Step>)
    requires Before(input, pre, lead, items, tail, c, m, texts) && items != [] && !Bad(items[0].text) && m <= PREFIX_LEN
    ensures Before(input, steps, FrameEndOf(items[0]), items[1..], tail, 0, 1, texts + [items[0].text])
  {
    hide Stands, PlayAll, Parse, FrameIn, Clean, NoFrame, PlainText, Head, Ahead, AfterNul, Bad, Since;
    var w := Ahead(lead, items, tail);
    var h, e, z := NextIn(lead, items, tail);
    FrameBounds(w, h, e, z);
    GoodIsShort(items[0].text);
    SinceAtFirst(c, h, z, m);
    steps := TakeGood(input, pre, w, h, e, z, c, m, texts);
    FrameText(w, h, e, z);
    OnToNext(items, texts, Parse(w[e..]));
  }

  lemma OnToNext(items: seq<Item>, texts: seq<string>, more: seq<string>)
    requires Clean(items) && items != []
    ensures Clean(items[1..]) && texts + ([items[0].text] + more) == texts + [items[0].text] + more
    ensures |items| > 1 ==> 1 <= |Head(FrameEndOf(items[0]), items[1])|
  {
  }

  lemma GoodIsShort(text: string)
    requires !Bad(text)
    ensures |text| <= MAX_ENCODED
  {
  }

  lemma SinceAtFirst(c: nat, h: nat, z: nat, m: nat)
    requires z <= h && c <= m <= h && (m <= PREFIX_LEN || c == m)
    ensures Since(c, h, z, m) == c
  {
  }

  /** A rejected text, with more than a prefix before its end: the next parse passes the end. */
  lemma PastFirst(input: string, pre: seq<Step>, lead: string, items: seq<Item>, tail: string, c: nat, m: nat,
                  texts: seq<string>)
    returns (steps: seq<Step>)
    requires Before(input, pre, lead, items, tail, c, m, texts) && items != [] && Bad(items[0].text)
    requires m <= PREFIX_LEN || c == m
    requires var it, h := items[0], |Head(lead, items[0])|;
             var z, e := AfterNul(Head(lead, it), h), h + PREFIX_LEN + |it.text|;
             var a := Since(c, h, z, h + PREFIX_LEN);
             e + 1 - a < BUFFER_SIZE && e - a > PREFIX_LEN
    ensures Misses(input, steps)
  {
    hide Stands, PlayAll, Parse, Clean, NoFrame, PlainText, Head, Ahead, AfterNul, Bad, Since, FindPrefix, EndOf;
    var w := Ahead(lead, items, tail);
    var h, e, z := NextIn(lead, items, tail);
    SinceAtFirst(c, h, z, m);
    steps := Reject(input, pre, w, h, e, z, c, m, texts);
    steps := RunPast(input, steps, w, Since(c, h, z, h + PREFIX_LEN), e, texts + [items[0].text]);
  }

  /** An empty text right behind a NUL is rejected. */
  lemma EmptyFirst(input: string, pre: seq<Step>, lead: string, items: seq<Item>, tail: string, c: nat, m: nat,
                   texts: seq<string>)
    returns (steps: seq<Step>, w: string, h: nat)
    requires Before(input, pre, lead, items, tail, c, m, texts) && items != [] && Bad(items[0].text) && m <= PREFIX_LEN
    requires items[0].text == "" && AfterNul(Head(lead, items[0]), |Head(lead, items[0])|) == |Head(lead, items[0])|
    ensures Behind(input, steps, w, h, FrameEndOf(items[0]), items[1..], tail, texts + [items[0].text])
  {
    hide Stands, PlayAll, Parse, Clean, NoFrame, PlainText, Head, Ahead, AfterNul, Bad, Since, FindPrefix, EndOf, FrameIn;
    w := Ahead(lead, items, tail);
    var e, z;
    h, e, z := NextIn(lead, items, tail);
    FrameBounds(w, h, e, z);
    SinceAtFirst(c, h, z, m);
    SinceBehind(c, h, z);
    steps := Reject(input, pre, w, h, e, z, c, m, texts);
    FrameText(w, h, e, z);
    FrameEnds(w, h, e, z);
    OnToNext(items, texts, Parse(w[e..]));
  }

  lemma FrameEnds(w: string, h: nat, e: nat, z: nat)
    requires FrameIn(w, h, e, z)
    ensures e < |w| && w[e] == BEL
  {
  }

  /** All that was read behind it, and `n` bytes in all, are dropped. */
  lemma DropBehind(input: string, pre: seq<Step>, w: string, h: nat, lead: string, items: seq<Item>, tail: string,
                   texts: seq<string>, n: nat)
    returns (steps: seq<Step>)
    requires Behind(input, pre, w, h, lead, items, tail, texts) && 1 <= n && PREFIX_LEN + n < BUFFER_SIZE
    requires items != [] ==> n <= |Head(lead, items[0])|
    requires n == 1 || (items != [] && AfterNul(Head(lead, items[0]), |Head(lead, items[0])|) == 0)
    ensures Before(input, steps, lead, items, tail, n, n, texts)
  {
    hide Stands, PlayAll, Parse, Clean, NoFrame, PlainText, Head, AfterNul, FindPrefix, FirstNul, FrameIn, Ahead;
    var w2, e := Ahead(lead, items, tail), h + PREFIX_LEN;
    if n == 1 {
      AloneBel(w[e..e + 1]);
    } else {
      var h2, e2, z2 := NextIn(lead, items, tail);
      NothingIn(w2, h2, e2, n);
      FrontOf(w, e, w2, n);
    }
    steps := SkipAll(input, pre, w, h, texts, n);
    StandsLater(PlayAll(input, steps), input, w, e + n, e + n, 0, texts, e);
  }

  lemma AloneBel(u: string)
    requires u == [BEL]
    ensures FindPrefix(u, 0) == |u| && FirstNul(u) == |u|
  {
    ShortHoldsNone(u);
    assert u[1..] == [];
  }

  /** The next frame is cut. */
  lemma LoseBehind(input: string, pre: seq<Step>, w: string, h: nat, lead: string, items: seq<Item>, tail: string,
                   texts: seq<string>)
    returns (steps: seq<Step>)
    requires Behind(input, pre, w, h, lead, items, tail, texts) && LosesNext(lead, items)
    ensures Misses(input, steps)
  {
    hide Stands, PlayAll, Parse, Clean, NoFrame, PlainText, Head, AfterNul, FrameIn, Ahead;
    var h2, e2, z2 := NextIn(lead, items, tail);
    steps := Lose(input, pre, w, h, texts, Ahead(lead, items, tail), h2, e2);
  }

  /** Nothing before the next frame is kept, and it fills the buffer. */
  lemma FillBehind(input: string, pre: seq<Step>, w: string, h: nat, lead: string, items: seq<Item>, tail: string,
                   texts: seq<string>)
    returns (steps: seq<Step>)
    requires Behind(input, pre, w, h, lead, items, tail, texts) && NeedsAll(lead, items)
    ensures Misses(input, steps)
  {
    hide Behind, Before, Bad, Head, AfterNul;
    var n := |Head(lead, items[0])|;
    steps := DropBehind(input, pre, w, h, lead, items, tail, texts, n);
    SinceBehind(n, n, 0);
    steps := PastFirst(input, steps, lead, items, tail, n, n, texts);
  }

  /** A frame that is not both empty and right behind a NUL leaves the index behind a prefix. */
  lemma OtherFits(lead: string, items: seq<Item>, freed: bool, c: nat)
    requires items != [] && Bad(items[0].text) && Missable(lead, items, freed)
    requires var h := |Head(lead, items[0])|; !(items[0].text == "" && h == AfterNul(Head(lead, items[0]), h)) && c <= h
    requires if freed then c == 1 && !LosesNext(lead, items) && !NeedsAll(lead, items) else c == 0
    ensures var it, h := items[0], |Head(lead, items[0])|;
            var z, e := AfterNul(Head(lead, it), h), h + PREFIX_LEN + |it.text|;
            var a := Since(c, h, z, h + PREFIX_LEN);
            e + 1 - a < BUFFER_SIZE && e - a > PREFIX_LEN
  {
    hide Bad, Head, AfterNul, Since;
    var h := |Head(lead, items[0])|;
    SinceBehind(c, h, AfterNul(Head(lead, items[0]), h));
  }

  /** If a stream is Missable, some schedule goes wrong. */
  lemma {:induction false} MissSchedule(input: string, pre: seq<Step>, lead: string, items: seq<Item>, tail: string,
                                        freed: bool, c: nat, m: nat, texts: seq<string>)
    returns (steps: seq<Step>)
    requires Before(input, pre, lead, items, tail, c, m, texts) && m <= 1 && Missable(lead, items, freed)
    requires if freed then c == 1 && !LosesNext(lead, items) && !NeedsAll(lead, items) else c == 0
    ensures Misses(input, steps)
    decreases |items|
  {
    hide Before, Behind, Bad, Head, AfterNul, LosesNext, NeedsAll, Misses, LeastKept, Since;
    var it, h := items[0], |Head(lead, items[0])|;
    var next, texts' := FrameEndOf(it), texts + [it.text];
    BeforeHead(input, pre, lead, items, tail, c, m, texts);
    if !Bad(it.text) {
      steps := GoodFirst(input, pre, lead, items, tail, c, m, texts);
      steps := MissSchedule(input, steps, next, items[1..], tail, false, 0, 1, texts');
    } else if it.text == "" && h == AfterNul(Head(lead, it), h) {
      var w, h1;
      steps, w, h1 := EmptyFirst(input, pre, lead, items, tail, c, m, texts);
      if LosesNext(next, items[1..]) {
        steps := LoseBehind(input, steps, w, h1, next, items[1..], tail, texts');
      } else if NeedsAll(next, items[1..]) {
        steps := FillBehind(input, steps, w, h1, next, items[1..], tail, texts');
      } else {
        if |items| > 1 { HeadStarts(next, items[1..]); }
        steps := DropBehind(input, steps, w, h1, next, items[1..], tail, texts', 1);
        steps := MissSchedule(input, steps, next, items[1..], tail, true, 1, 1, texts');
      }
    } else {
      OtherFits(lead, items, freed, c);
      steps := PastFirst(input, pre, lead, items, tail, c, m, texts);
    }
  }

  lemma BeforeHead(input: string, pre: seq<Step>, lead: string, items: seq<Item>, tail: string, c: nat, m: nat,
                   texts: seq<string>)
    requires Before(input, pre, lead, items, tail, c, m, texts)
    ensures c <= m && (items != [] ==> m <= |Head(lead, items[0])|)
  {
  }

  // ---------------------------------------------------------------- exactly

  /** Some order of reads and parses goes wrong. */
  ghost predicate CanMiss(input: string) {
    exists steps :: Misses(input, steps)
  }

  /** For every stream of garbage and frames: some schedule moves past the bytes received or
      does not get a text that is there if and only if the stream is Missable. */
  lemma MissesExactly(items: seq<Item>, tail: string)
    requires Clean(items) && NoFrame(tail)
    ensures CanMiss(Stream(items, tail)) <==> Missable([], items, false)
  {
    hide Misses, Missable, NoFrame, Clean, Stream, Before;
    var input := Stream(items, tail);
    if Missable([], items, false) {
      AtFirst(items, tail);
      var steps := MissSchedule(input, [], [], items, tail, false, 0, 0, []);
      assert Misses(input, steps);
    } else {
      forall steps ensures !Misses(input, steps) { NeverMisses(items, tail, steps); }
    }
  }

  lemma AtFirst(items: seq<Item>, tail: string)
    requires Clean(items) && NoFrame(tail)
    ensures Before(Stream(items, tail), [], [], items, tail, 0, 0, [])
  {
    hide NoFrame, Clean, Stream, Head, Parse;
    var input := Stream(items, tail);
    Beginning(input);
    assert Ahead([], items, tail) == input;
    assert [] + Parse(input) == Parse(input);
  }

  /** Packages never go wrong. */
  lemma {:induction false} PackagesNeverMiss(lead: string, items: seq<Item>, freed: bool)
    requires AllPackages(Texts(items))
    ensures !Missable(lead, items, freed)
    decreases |items|
  {
    hide Payload, Head, AfterNul, LosesNext;
    if items != [] {
      assert Texts(items)[0] == items[0].text;
      assert Texts(items)[1..] == Texts(items[1..]);
      assert forall i :: 0 <= i < |items| - 1 ==> Texts(items[1..])[i] == Texts(items)[i + 1];
      PackagesNeverMiss(FrameEndOf(items[0]), items[1..], false);
    }
  }

  /** What a frame leaves in front of the `i`-th. */
  function LeadOf(lead: string, items: seq<Item>, i: nat): string
    requires i <= |items|
  {
    if i == 0 then lead else FrameEndOf(items[i - 1])
  }

  /** A text that is no package, unless it is empty, right behind a NUL, and the next frame
      cannot be cut. */
  predicate Harms(lead: string, items: seq<Item>, i: nat)
    requires i < |items|
  {
    var h := |Head(LeadOf(lead, items, i), items[i])|;
    && Bad(items[i].text)
    && (items[i].text != "" || AfterNul(Head(LeadOf(lead, items, i), items[i]), h) < h
        || LosesNext(FrameEndOf(items[i]), items[i + 1..]))
  }

  /** Where no text is longer than a package's can be, each frame counts by itself. */
  lemma {:induction false} ShortMissable(lead: string, items: seq<Item>, freed: bool)
    requires ShortTexts(items)
    ensures Missable(lead, items, freed) <==> exists i :: 0 <= i < |items| && Harms(lead, items, i)
    decreases |items|
  {
    hide Bad, Head, AfterNul, LosesNext, Harms;
    if items != [] {
      var next, rest := FrameEndOf(items[0]), items[1..];
      HarmsFirst(lead, items);
      forall i | 0 <= i < |rest| ensures Harms(next, rest, i) <==> Harms(lead, items, i + 1) { HarmsLater(lead, items, i); }
      ShortMissable(next, rest, Bad(items[0].text));
      if i :| 0 <= i < |items| && Harms(lead, items, i) {
        if i > 0 { assert Harms(next, rest, i - 1); }
      }
      if i :| 0 <= i < |rest| && Harms(next, rest, i) { assert Harms(lead, items, i + 1); }
    }
  }

  lemma HarmsFirst(lead: string, items: seq<Item>)
    requires items != []
    ensures var h := |Head(lead, items[0])|;
            Harms(lead, items, 0) <==> Bad(items[0].text) && (items[0].text != "" || AfterNul(Head(lead, items[0]), h) < h
                                                              || LosesNext(FrameEndOf(items[0]), items[1..]))
  {
    hide Bad, Head, AfterNul, LosesNext;
  }

  lemma HarmsLater(lead: string, items: seq<Item>, i: nat)
    requires i + 1 < |items|
    ensures Harms(FrameEndOf(items[0]), items[1..], i) <==> Harms(lead, items, i + 1)
  {
    hide Bad, Head, AfterNul, LosesNext;
    assert items[1..][i + 1..] == items[i + 2..];
    assert LeadOf(FrameEndOf(items[0]), items[1..], i) == LeadOf(lead, items, i + 1);
  }
}
