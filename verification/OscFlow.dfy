/** What parsePkg leaves in the receive buffer, as functions of the bytes received, and how
    reading and parsing interleave (osc/OscSession.cpp:72-125, 201-227). */
module OscFlow {
  import opened OscFraming

  const BUFFER_SIZE: nat := 65536
  const READ_SIZE: nat := 4096

  // ---------------------------------------------------------------- what stays in the buffer

  /** The place behind the last NUL before `p`. */
  function AfterNul(s: string, p: nat): (z: nat)
    requires p <= |s|
    ensures z <= p && (z > 0 ==> s[z - 1] == NUL)
    ensures forall k :: z <= k < p ==> s[k] != NUL
  {
    if p == 0 then 0 else if s[p - 1] == NUL then p else AfterNul(s, p - 1)
  }

  lemma {:induction false} AfterNulIs(s: string, p: nat, z: nat)
    requires z <= p <= |s| && (z > 0 ==> s[z - 1] == NUL) && forall k :: z <= k < p ==> s[k] != NUL
    ensures AfterNul(s, p) == z
    decreases p
  {
    if z < p { AfterNulIs(s, p - 1, z); }
  }

  /** The last bytes, in which a frame start may have begun. */
  function Ending(v: string): (r: string)
    ensures |r| <= PREFIX_LEN && |r| <= |v| && r == v[|v| - |r|..]
  {
    if |v| <= PREFIX_LEN then v else v[|v| - PREFIX_LEN..]
  }

  /** What the skip loop keeps: from behind the last NUL before a frame start, or the last
      bytes if there is none. */
  function Kept(v: string): (r: string)
    ensures |r| <= |v| && r == v[|v| - |r|..]
  {
    var p := FindPrefix(v, 0);
    if p == |v| then Ending(v) else v[AfterNul(v, p)..]
  }

  /** What parsePkg leaves when every text is a package. */
  function Rest(v: string): (r: string)
    ensures |r| <= |v|
    decreases |v|
  {
    var p := FindPrefix(v, 0);
    if p == |v| then Ending(v)
    else
      var e := EndOf(v, p + PREFIX_LEN);
      if e < |v| && v[e] == BEL then Rest(v[e..]) else v[AfterNul(v, p)..]
  }

  lemma RestNone(v: string)
    requires FindPrefix(v, 0) == |v|
    ensures Rest(v) == Ending(v) == Kept(v)
  {
  }

  lemma RestComplete(v: string, p: nat, e: nat)
    requires p == FindPrefix(v, 0) < |v| && p + PREFIX_LEN <= |v|
    requires e == EndOf(v, p + PREFIX_LEN) < |v| && v[e] == BEL
    ensures Rest(v) == Rest(v[e..])
  {
    hide EndOf, OccursAt, FindPrefix, AfterNul, Ending;
  }

  lemma RestUnfinished(v: string, p: nat, e: nat)
    requires p == FindPrefix(v, 0) < |v| && p + PREFIX_LEN <= |v|
    requires e == EndOf(v, p + PREFIX_LEN) && (e < |v| ==> v[e] != BEL)
    ensures Rest(v) == v[AfterNul(v, p)..]
  {
    hide EndOf, OccursAt, FindPrefix, AfterNul, Ending;
  }

  lemma KeptFrame(v: string, p: nat)
    requires p == FindPrefix(v, 0) < |v|
    ensures Kept(v) == v[AfterNul(v, p)..]
  {
    hide OccursAt, FindPrefix, AfterNul, Ending;
  }

  /** Dropping bytes before the first frame start. */
  lemma FindDrop(v: string, z: nat)
    requires z <= FindPrefix(v, 0) && z <= |v|
    ensures FindPrefix(v[z..], 0) == FindPrefix(v, 0) - z
  {
    hide OccursAt;
    FindSkip(v, 0, z);
    FindShift(v, z, 0);
  }

  lemma EndDrop(v: string, z: nat, x: nat)
    requires z <= x <= |v|
    ensures EndOf(v[z..], x - z) == EndOf(v, x) - z
  {
    EndShift(v, z, x - z);
  }

  lemma NoneInEnding(v: string)
    requires FindPrefix(v, 0) == |v|
    ensures FindPrefix(Ending(v), 0) == |Ending(v)| && Ending(Ending(v)) == Ending(v)
  {
    FindDrop(v, |v| - |Ending(v)|);
  }

  /** A frame start at `p` in `v`, seen from `z`, between the last NUL and it. */
  lemma RestFrom(v: string, p: nat, e: nat, z: nat, u: string)
    requires p == FindPrefix(v, 0) < |v| && p + PREFIX_LEN <= |v| && e == EndOf(v, p + PREFIX_LEN)
    requires AfterNul(v, p) <= z <= p && u == v[z..]
    ensures Rest(u) == if e < |v| && v[e] == BEL then Rest(v[e..]) else u
  {
    hide FindPrefix, EndOf, OccursAt, AfterNul, Rest, Kept;
    FindDrop(v, z);
    EndDrop(v, z, p + PREFIX_LEN);
    if e < |v| && v[e] == BEL {
      Slices(v, u, z, e - z, e - z);
      RestComplete(u, p - z, e - z);
    } else {
      AfterNulIs(u, p - z, 0);
      RestUnfinished(u, p - z, e - z);
      assert u[0..] == u;
    }
  }

  /** What the skip loop drops plays no part in what is left in the end. */
  lemma RestOfKept(v: string)
    ensures Rest(Kept(v)) == Rest(v)
  {
    hide FindPrefix, EndOf, OccursAt, AfterNul, Rest, Ending;
    var p := FindPrefix(v, 0);
    if p == |v| {
      RestNone(v);
      NoneInEnding(v);
      RestNone(Ending(v));
    } else {
      PrefixFits(v, p);
      KeptFrame(v, p);
      var e := EndOf(v, p + PREFIX_LEN);
      RestFrom(v, p, e, AfterNul(v, p), Kept(v));
      if e < |v| && v[e] == BEL { RestComplete(v, p, e); } else { RestUnfinished(v, p, e); }
    }
  }

  /** What is left holds no complete frame, and parsing it again changes nothing. */
  lemma {:induction false} RestWaits(v: string)
    ensures Parse(Rest(v)) == [] && Rest(Rest(v)) == Rest(v)
    decreases |v|
  {
    hide FindPrefix, EndOf, OccursAt, AfterNul, Rest, Parse, Ending, Kept;
    var p := FindPrefix(v, 0);
    if p == |v| {
      RestNone(v);
      NoneInEnding(v);
      RestNone(Ending(v));
      ParseNone(Ending(v), |Ending(v)|);
    } else {
      PrefixFits(v, p);
      var e := EndOf(v, p + PREFIX_LEN);
      if e < |v| && v[e] == BEL {
        RestComplete(v, p, e);
        RestWaits(v[e..]);
      } else {
        var z := AfterNul(v, p);
        RestUnfinished(v, p, e);
        RestFrom(v, p, e, z, v[z..]);
        EndStops(v, p + PREFIX_LEN);
        UnfinishedParse(v, p, e, z);
      }
    }
  }

  lemma UnfinishedParse(v: string, p: nat, e: nat, z: nat)
    requires z <= p == FindPrefix(v, 0) < |v| && p + PREFIX_LEN <= |v|
    requires e == EndOf(v, p + PREFIX_LEN) && (e < |v| ==> v[e] == NUL)
    ensures Parse(v[z..]) == []
  {
    hide FindPrefix, EndOf, OccursAt, Parse;
    FindDrop(v, z);
    EndDrop(v, z, p + PREFIX_LEN);
    ParseNone(v[z..], p - z);
  }

  // ---------------------------------------------------------------- parts of a longer string

  lemma OccursInPart(w: string, c: nat, m: nat, q: nat)
    requires c <= m <= |w|
    ensures OccursAt(w[c..m], q) <==> c + q + PREFIX_LEN <= m && OccursAt(w, c + q)
  {
    if c + q + PREFIX_LEN <= m {
      Slices(w[..m], w[c..m], c, q, q + PREFIX_LEN);
      assert w[c..m][q..q + PREFIX_LEN] == w[c + q..c + q + PREFIX_LEN];
    }
  }

  /** The first frame start of a part that begins before it. */
  lemma FindIn(w: string, p: nat, c: nat, m: nat)
    requires p == FindPrefix(w, 0) && c <= p && c <= m <= |w|
    ensures FindPrefix(w[c..m], 0) == if p + PREFIX_LEN <= m then p - c else m - c
  {
    hide OccursAt;
    var q := FindPrefix(w[c..m], 0);
    if q < m - c { OccursInPart(w, c, m, q); }
    if p + PREFIX_LEN <= m { OccursInPart(w, c, m, p - c); }
  }

  lemma {:induction false} EndIn(w: string, x: nat, c: nat, m: nat)
    requires c <= x <= m <= |w|
    ensures EndOf(w[c..m], x - c) == (if EndOf(w, x) < m then EndOf(w, x) else m) - c
    decreases m - x
  {
    if x < m { EndIn(w, x + 1, c, m); }
  }

  lemma AfterNulIn(w: string, p: nat, c: nat, m: nat)
    requires c <= p <= m <= |w|
    ensures AfterNul(w[c..m], p - c) == (if AfterNul(w, p) > c then AfterNul(w, p) else c) - c
  {
    var z := if AfterNul(w, p) > c then AfterNul(w, p) else c;
    AfterNulIs(w[c..m], p - c, z - c);
  }

  // ---------------------------------------------------------------- where frames lie in a stream

  /** What sendPkg writes before a frame's prefix in tmux (osc/osc.h:4). */
  const TMUX_LEAD: string := "\U{1b}Ptmux;\U{1b}"

  function FrameEndOf(it: Item): (lead: string)
    ensures FrameEnd(lead) && |lead| > 0
  {
    if it.inTmux then TMUX_SUFFIX else SUFFIX
  }

  /** Everything before the prefix of the next frame, from the end of the last on. */
  function Head(lead: string, it: Item): (h: string) {
    lead + it.garbage + if it.inTmux then TMUX_LEAD else []
  }

  /** How much a receiver may have to hold of the next frame: from behind the last NUL in
      front of it up to its end. */
  function Reach(lead: string, it: Item): (n: nat) {
    |Head(lead, it)| - AfterNul(Head(lead, it), |Head(lead, it)|) + PREFIX_LEN + |it.text|
  }

  /** Every frame, with what is kept before it, ends before the reading guard shuts. */
  predicate NoStall(lead: string, items: seq<Item>)
    decreases |items|
  {
    items != [] ==> Reach(lead, items[0]) < BUFFER_SIZE - READ_SIZE && NoStall(FrameEndOf(items[0]), items[1..])
  }

  lemma FrameParts(lead: string, it: Item, rest: string)
    ensures lead + (it.garbage + Frame(it.text, it.inTmux) + rest)
         == Head(lead, it) + (PREFIX + it.text + (FrameEndOf(it) + rest))
  {
    TmuxParts();
    assert TMUX_PREFIX == TMUX_LEAD + PREFIX;
    hide PREFIX, SUFFIX, TMUX_PREFIX, TMUX_SUFFIX, TMUX_LEAD;
    var t := it.text + (FrameEndOf(it) + rest);
    assert Frame(it.text, it.inTmux) + rest == (if it.inTmux then TMUX_LEAD else []) + (PREFIX + t);
    assert PREFIX + t == PREFIX + it.text + (FrameEndOf(it) + rest);
  }

  /** What a reader behind a frame's end has ahead of it. */
  function Ahead(lead: string, items: seq<Item>, tail: string): (w: string) {
    lead + Stream(items, tail)
  }

  lemma NoFrameInHead(lead: string, it: Item)
    requires FrameEnd(lead) && NoFrame(it.garbage)
    ensures NoFrame(Head(lead, it))
  {
    hide OccursAt;
    NoFrameAfter(lead, it.garbage);
    ShortHoldsNone(TMUX_LEAD);
    if it.inTmux { NoFrameJoin(lead + it.garbage, TMUX_LEAD); }
    assert lead + it.garbage + [] == lead + it.garbage;
  }

  lemma ShortHoldsNone(s: string)
    requires |s| < PREFIX_LEN
    ensures NoFrame(s)
  {
  }

  lemma {:induction false} AfterNulMore(s: string, more: string, p: nat)
    requires p <= |s|
    ensures AfterNul(s + more, p) == AfterNul(s, p)
    decreases p
  {
    if p > 0 { AfterNulMore(s, more, p - 1); }
  }

  lemma NoneAhead(lead: string, tail: string)
    requires FrameEnd(lead) && NoFrame(tail)
    ensures Ahead(lead, [], tail) == lead + tail && FindPrefix(lead + tail, 0) == |lead + tail|
  {
    NoFrameAfter(lead, tail);
  }

  /** Where the next frame lies. */
  lemma Layout(lead: string, items: seq<Item>, tail: string)
    requires FrameEnd(lead) && Clean(items) && items != []
    ensures var w, h := Ahead(lead, items, tail), |Head(lead, items[0])|;
            var e := h + PREFIX_LEN + |items[0].text|;
            && e < |w| && w[e] == BEL && FindPrefix(w, 0) == h && EndOf(w, h + PREFIX_LEN) == e
            && w[e..] == Ahead(FrameEndOf(items[0]), items[1..], tail) && w[h + PREFIX_LEN..e] == items[0].text
            && AfterNul(w, h) == AfterNul(Head(lead, items[0]), h)
  {
    hide FindPrefix, EndOf, OccursAt, AfterNul, Head, Frame, NoFrame, PlainText;
    var it, rest := items[0], Stream(items[1..], tail);
    FrameParts(lead, it, rest);
    NoFrameInHead(lead, it);
    NextFrameIs(Head(lead, it), it.text, FrameEndOf(it) + rest);
  }

  lemma NextFrameIs(head: string, text: string, next: string)
    requires NoFrame(head) && PlainText(text) && next != [] && next[0] == BEL
    ensures var w, h := head + (PREFIX + text + next), |head|;
            var e := h + PREFIX_LEN + |text|;
            && e < |w| && w[e] == BEL && FindPrefix(w, 0) == h && EndOf(w, h + PREFIX_LEN) == e
            && w[e..] == next && w[h + PREFIX_LEN..e] == text && AfterNul(w, h) == AfterNul(head, h)
  {
    PrefixLetters();
    hide PREFIX, FindPrefix, EndOf, OccursAt, AfterNul, NoFrame;
    var body := PREFIX + text + next;
    var w, h, e := head + body, |head|, |head| + PREFIX_LEN + |text|;
    AfterNulMore(head, body, h);
    FrameStart(head, body, text, next);
    FindSkip(w, 0, h);
    FindHere(w, h);
    assert w[e..] == next;
    assert w[h + PREFIX_LEN..e] == text;
    forall k | h + PREFIX_LEN <= k < e ensures w[k] != BEL && w[k] != NUL { assert w[k] == text[k - h - PREFIX_LEN]; }
    EndIs(w, h + PREFIX_LEN, e);
  }

  lemma FrameStart(head: string, body: string, text: string, next: string)
    requires NoFrame(head) && body == PREFIX + text + next
    ensures OccursAt(head + body, |head|) && forall q :: 0 <= q < |head| ==> !OccursAt(head + body, q)
  {
    PrefixLetters();
    assert body[0] == ESC;
    hide PREFIX, NoFrame;
    forall q | 0 <= q < |head| ensures !OccursAt(head + body, q) { NoStraddle(head, body, q); }
    var w := head + body;
    assert w[|head|..|head| + PREFIX_LEN] == PREFIX;
  }

  // ---------------------------------------------------------------- parsing a part of a stream

  /** What parsePkg makes of bytes `c` to `m` of a stream whose next frame starts at `h` and
      ends at `e`. */
  lemma RestOfPart(w: string, h: nat, e: nat, c: nat, m: nat)
    requires FindPrefix(w, 0) == h && c <= h && h + PREFIX_LEN <= e < |w| && c <= m <= |w|
    requires EndOf(w, h + PREFIX_LEN) == e && w[e] == BEL
    ensures Rest(w[c..m]) ==
      if m < h + PREFIX_LEN then Ending(w[c..m])
      else if m <= e then w[if AfterNul(w, h) > c then AfterNul(w, h) else c..m]
      else Rest(w[e..m])
  {
    hide FindPrefix, EndOf, OccursAt, AfterNul, Rest, Kept, Ending;
    var v := w[c..m];
    FindIn(w, h, c, m);
    if m < h + PREFIX_LEN {
      RestNone(v);
    } else {
      EndIn(w, h + PREFIX_LEN, c, m);
      if m <= e {
        AfterNulIn(w, h, c, m);
        RestUnfinished(v, h - c, m - c);
        SliceOfPart(w, c, m, AfterNul(v, h - c));
      } else {
        RestComplete(v, h - c, e - c);
        SliceOfPart(w, c, m, e - c);
      }
    }
  }

  lemma SliceOfPart(w: string, c: nat, m: nat, k: nat)
    requires c + k <= m <= |w|
    ensures w[c..m][k..] == w[c + k..m]
  {
  }

  /** `view` is in the buffer and `rest` is still to be read, `c` bytes behind the end of the
      last frame taken and not behind the next frame's start. */
  ghost predicate Position(view: string, rest: string, lead: string, items: seq<Item>, tail: string, c: nat) {
    && FrameEnd(lead) && Clean(items) && NoFrame(tail)
    && c <= |Ahead(lead, items, tail)| && (items != [] ==> c <= |Head(lead, items[0])|)
    && view + rest == Ahead(lead, items, tail)[c..]
  }

  lemma PositionPart(view: string, rest: string, lead: string, items: seq<Item>, tail: string, c: nat)
    requires Position(view, rest, lead, items, tail, c)
    ensures FrameEnd(lead) && Clean(items) && NoFrame(tail) && (items != [] ==> c <= |Head(lead, items[0])|)
    ensures var w := Ahead(lead, items, tail); c + |view| <= |w| && view == w[c..c + |view|] && rest == w[c + |view|..]
  {
    hide NoFrame, Clean, Ahead, Head;
    var w := Ahead(lead, items, tail);
    assert view == (view + rest)[..|view|] && rest == (view + rest)[|view|..];
    SliceOfPart(w, c, |w|, |view|);
  }

  /** A shorter view of the same stream. */
  lemma PositionLater(view: string, rest: string, lead: string, items: seq<Item>, tail: string, c: nat, k: nat)
    requires Position(view, rest, lead, items, tail, c) && k <= |view|
    requires items != [] ==> c + k <= |Head(lead, items[0])|
    ensures Position(view[k..], rest, lead, items, tail, c + k)
  {
    hide NoFrame, Clean, Ahead, Head;
    var w := Ahead(lead, items, tail);
    assert view[k..] + rest == (view + rest)[k..];
    SliceOfPart(w, c, |w|, k);
  }

  /** The last bytes of the view, before the next frame start is there in full. */
  lemma PositionEnding(view: string, rest: string, lead: string, items: seq<Item>, tail: string, c: nat)
    requires Position(view, rest, lead, items, tail, c)
    requires items != [] ==> c + |view| < |Head(lead, items[0])| + PREFIX_LEN
    ensures Position(Ending(view), rest, lead, items, tail, c + |view| - |Ending(view)|)
  {
    hide NoFrame, Clean, Ahead, Head;
    PositionLater(view, rest, lead, items, tail, c, |view| - |Ending(view)|);
  }

  /** Without another frame, no more than the last bytes are kept. */
  lemma RestPositionLast(view: string, rest: string, lead: string, tail: string, c: nat)
    requires Position(view, rest, lead, [], tail, c)
    ensures Rest(view) == Ending(view)
  {
    hide Position, FindPrefix, OccursAt, AfterNul, Rest, Kept, NoFrame;
    PositionPart(view, rest, lead, [], tail, c);
    NoneAhead(lead, tail);
    FindIn(lead + tail, |lead + tail|, c, c + |view|);
    RestNone(view);
  }

  /** What is kept of an unfinished frame and the bytes before it. */
  lemma RestPositionUnfinished(view: string, rest: string, lead: string, items: seq<Item>, tail: string, c: nat)
    returns (c': nat)
    requires Position(view, rest, lead, items, tail, c) && items != []
    requires var h := |Head(lead, items[0])|; h + PREFIX_LEN <= c + |view| <= h + PREFIX_LEN + |items[0].text|
    ensures Position(Rest(view), rest, lead, items, tail, c') && |Rest(view)| <= Reach(lead, items[0])
  {
    hide Position, FindPrefix, EndOf, OccursAt, AfterNul, Rest, Kept, NoFrame, Clean, PlainText, Head, Ahead;
    PositionPart(view, rest, lead, items, tail, c);
    Layout(lead, items, tail);
    var w, h := Ahead(lead, items, tail), |Head(lead, items[0])|;
    c' := KeptOfPart(view, w, h, h + PREFIX_LEN + |items[0].text|, c);
    PositionLater(view, rest, lead, items, tail, c, c' - c);
  }

  lemma KeptOfPart(view: string, w: string, h: nat, e: nat, c: nat) returns (c': nat)
    requires FindPrefix(w, 0) == h && c <= h && h + PREFIX_LEN <= c + |view| <= e < |w|
    requires EndOf(w, h + PREFIX_LEN) == e && w[e] == BEL && view == w[c..c + |view|]
    ensures c <= c' <= h && Rest(view) == view[c' - c..] && |Rest(view)| <= e - AfterNul(w, h)
  {
    hide FindPrefix, EndOf, OccursAt, AfterNul, Rest;
    RestOfPart(w, h, e, c, c + |view|);
    c' := if AfterNul(w, h) > c then AfterNul(w, h) else c;
    SliceOfPart(w, c, c + |view|, c' - c);
  }

  /** A frame that is complete is taken, and the next one is ahead. */
  lemma RestPositionTaken(view: string, rest: string, lead: string, items: seq<Item>, tail: string, c: nat)
    returns (view': string)
    requires Position(view, rest, lead, items, tail, c) && items != []
    requires c + |view| > |Head(lead, items[0])| + PREFIX_LEN + |items[0].text|
    ensures Position(view', rest, FrameEndOf(items[0]), items[1..], tail, 0) && Rest(view) == Rest(view')
  {
    hide Position, FindPrefix, EndOf, OccursAt, AfterNul, Rest, Kept, NoFrame, Clean, PlainText, Head, Ahead;
    PositionPart(view, rest, lead, items, tail, c);
    Layout(lead, items, tail);
    var w, h, m := Ahead(lead, items, tail), |Head(lead, items[0])|, c + |view|;
    var e := h + PREFIX_LEN + |items[0].text|;
    RestOfPart(w, h, e, c, m);
    PositionNext(w, lead, items, tail, e, m);
    view' := w[e..m];
  }

  lemma RestPositionEarly(view: string, rest: string, lead: string, items: seq<Item>, tail: string, c: nat)
    requires Position(view, rest, lead, items, tail, c) && items != []
    requires c + |view| < |Head(lead, items[0])| + PREFIX_LEN
    ensures Rest(view) == Ending(view)
  {
    hide Position, FindPrefix, EndOf, OccursAt, AfterNul, Rest, Kept, NoFrame, Clean, PlainText, Head, Ahead, Ending;
    PositionPart(view, rest, lead, items, tail, c);
    Layout(lead, items, tail);
    var h := |Head(lead, items[0])|;
    RestOfPart(Ahead(lead, items, tail), h, h + PREFIX_LEN + |items[0].text|, c, c + |view|);
  }

  /** Parsing goes on to the next unfinished frame, and keeps no more than up to its end. */
  lemma {:induction false} RestPosition(view: string, rest: string, lead: string, items: seq<Item>, tail: string, c: nat)
    returns (lead': string, items': seq<Item>, c': nat)
    requires Position(view, rest, lead, items, tail, c)
    ensures Position(Rest(view), rest, lead', items', tail, c')
    ensures NoStall(lead, items) ==> NoStall(lead', items')
    ensures |Rest(view)| <= PREFIX_LEN || (items' != [] && |Rest(view)| <= Reach(lead', items'[0]))
    decreases |items|
  {
    hide Rest, Head, Reach, Position;
    lead', items', c' := lead, items, c + |view| - |Ending(view)|;
    if items == [] {
      RestPositionLast(view, rest, lead, tail, c);
      PositionEnding(view, rest, lead, items, tail, c);
    } else if c + |view| < |Head(lead, items[0])| + PREFIX_LEN {
      RestPositionEarly(view, rest, lead, items, tail, c);
      PositionEnding(view, rest, lead, items, tail, c);
    } else if c + |view| <= |Head(lead, items[0])| + PREFIX_LEN + |items[0].text| {
      c' := RestPositionUnfinished(view, rest, lead, items, tail, c);
    } else {
      var view' := RestPositionTaken(view, rest, lead, items, tail, c);
      lead', items', c' := RestPosition(view', rest, FrameEndOf(items[0]), items[1..], tail, 0);
    }
  }

  lemma PositionNext(w: string, lead: string, items: seq<Item>, tail: string, e: nat, m: nat)
    requires items != [] && Clean(items) && NoFrame(tail) && e <= m <= |w|
    requires w[e..] == Ahead(FrameEndOf(items[0]), items[1..], tail)
    ensures Position(w[e..m], w[m..], FrameEndOf(items[0]), items[1..], tail, 0)
  {
    hide NoFrame, PlainText;
    assert w[e..m] + w[m..] == w[e..];
    assert w[e..][0..] == w[e..];
  }

  // ---------------------------------------------------------------- reading and parsing in any order

  /** The session's steps: read up to `n` bytes, or run the queued parsePkg. */
  datatype Step = ReadInput(n: nat) | RunParse

  /** The buffer's bytes and how much of the input has been read. */
  datatype Flow = Flow(view: string, read: nat)

  predicate GuardOpen(len: nat) {
    len + READ_SIZE < BUFFER_SIZE
  }

  /** How many bytes a read gets. */
  function Chunk(n: nat, left: nat): (k: nat)
    ensures k <= n && k <= left && k <= READ_SIZE && (n > 0 && left > 0 ==> k > 0)
  {
    var most := if n < READ_SIZE then n else READ_SIZE;
    if most < left then most else left
  }

  function Next(input: string, f: Flow, step: Step): (r: Flow)
    requires f.read <= |input|
    ensures f.read <= r.read <= |input| && (|f.view| < BUFFER_SIZE ==> |r.view| < BUFFER_SIZE)
  {
    match step
    case ReadInput(n) =>
      if !GuardOpen(|f.view|) then f
      else
        var k := Chunk(n, |input| - f.read);
        Flow(f.view + input[f.read..f.read + k], f.read + k)
    case RunParse => Flow(Rest(f.view), f.read)
  }

  function Play(input: string, steps: seq<Step>): (f: Flow)
    ensures f.read <= |input| && |f.view| < BUFFER_SIZE
  {
    if steps == [] then Flow([], 0) else Next(input, Play(input, steps[..|steps| - 1]), steps[|steps| - 1])
  }

  /** The guard is shut on a frame that is not complete: no step changes anything any more. */
  predicate Stalled(f: Flow) {
    Rest(f.view) == f.view && !GuardOpen(|f.view|)
  }

  lemma {:induction false} StalledForEver(input: string, steps: seq<Step>, more: seq<Step>)
    requires Stalled(Play(input, steps))
    ensures Play(input, steps + more) == Play(input, steps)
    decreases |more|
  {
    hide Play, Next, Stalled;
    if more == [] {
      assert steps + more == steps;
    } else {
      var before, last := more[..|more| - 1], more[|more| - 1];
      StalledForEver(input, steps, before);
      StalledNext(input, Play(input, steps), last);
      PlayOne(input, steps + before, last);
      assert steps + more == steps + before + [last];
    }
  }

  lemma StalledNext(input: string, f: Flow, step: Step)
    requires Stalled(f) && f.read <= |input|
    ensures Next(input, f, step) == f
  {
    hide Rest;
  }

  lemma PlayOne(input: string, pre: seq<Step>, step: Step)
    ensures Play(input, pre + [step]) == Next(input, Play(input, pre), step)
  {
    hide Next;
    assert (pre + [step])[..|pre|] == pre;
  }

  lemma PositionStart(items: seq<Item>, tail: string)
    requires Clean(items) && NoFrame(tail)
    ensures Position([], Stream(items, tail), [], items, tail, 0)
  {
    hide Clean, NoFrame, Stream;
    var input := Stream(items, tail);
    assert [] + input == ([] + input)[0..];
  }

  lemma PositionRead(view: string, rest: string, lead: string, items: seq<Item>, tail: string, c: nat, k: nat)
    requires Position(view, rest, lead, items, tail, c) && k <= |rest|
    ensures Position(view + rest[..k], rest[k..], lead, items, tail, c)
  {
    hide Clean, NoFrame, Ahead, Head;
    assert view + rest[..k] + rest[k..] == view + rest;
  }

  lemma NextView(input: string, f: Flow, n: nat) returns (k: nat)
    requires f.read <= |input|
    ensures var rest, r := input[f.read..], Next(input, f, ReadInput(n));
            k <= |rest| && r.view == f.view + rest[..k] && input[r.read..] == rest[k..]
  {
    k := if GuardOpen(|f.view|) then Chunk(n, |input| - f.read) else 0;
    var rest := input[f.read..];
    assert rest[..k] == input[f.read..f.read + k];
    assert rest[k..] == input[f.read + k..];
  }

  lemma {:induction false} PlayPosition(items: seq<Item>, tail: string, steps: seq<Step>)
    returns (lead': string, items': seq<Item>, c: nat)
    requires Clean(items) && NoFrame(tail)
    ensures var input := Stream(items, tail);
            var f := Play(input, steps);
            && Position(f.view, input[f.read..], lead', items', tail, c) && (NoStall([], items) ==> NoStall(lead', items'))
            && (steps != [] && steps[|steps| - 1] == RunParse ==>
                  |f.view| <= PREFIX_LEN || (items' != [] && |f.view| <= Reach(lead', items'[0])))
    decreases |steps|
  {
    hide Rest, NoFrame, Clean, Reach, Stream, Head, Position, NoStall, Chunk;
    var input := Stream(items, tail);
    if steps == [] {
      lead', items', c := [], items, 0;
      PositionStart(items, tail);
      assert input[0..] == input;
    } else {
      var f := Play(input, steps[..|steps| - 1]);
      lead', items', c := PlayPosition(items, tail, steps[..|steps| - 1]);
      match steps[|steps| - 1] {
        case RunParse => lead', items', c := RestPosition(f.view, input[f.read..], lead', items', tail, c);
        case ReadInput(n) =>
          var k := NextView(input, f, n);
          PositionRead(f.view, input[f.read..], lead', items', tail, c, k);
      }
    }
  }

  /** With room for every frame, reading never stops for good. */
  lemma NeverStalls(items: seq<Item>, tail: string, steps: seq<Step>)
    requires Clean(items) && NoFrame(tail) && NoStall([], items)
    ensures !Stalled(Play(Stream(items, tail), steps))
    ensures steps != [] && steps[|steps| - 1] == RunParse ==> GuardOpen(|Play(Stream(items, tail), steps).view|)
  {
    hide Rest, NoFrame, Clean, Reach, Stream, Play;
    var input := Stream(items, tail);
    var f := Play(input, steps);
    var lead', items', c := PlayPosition(items, tail, steps);
    var lead2, items2, c2 := RestPosition(f.view, input[f.read..], lead', items', tail, c);
  }

  // ---------------------------------------------------------------- the schedules that stall

  /** One byte at a time, each followed by a parse. */
  function Drip(n: nat): (steps: seq<Step>) {
    if n == 0 then [] else Drip(n - 1) + [ReadInput(1), RunParse]
  }

  /** One byte at a time, with no parse in between. */
  function Pour(n: nat): (steps: seq<Step>) {
    if n == 0 then [] else Pour(n - 1) + [ReadInput(1)]
  }

  /** What is in the buffer after reading `m` bytes one by one, from a frame's end on. */
  function From(h: nat, z: nat, m: nat): (a: nat)
    requires z <= h
    ensures a <= m && a <= h
  {
    if m < h + PREFIX_LEN then if m < PREFIX_LEN then 0 else m - PREFIX_LEN
    else if h > z then h - 1 else h
  }

  /** The buffer holds bytes `a` to `m` of `w`, the end of the input. */
  predicate Holds(f: Flow, input: string, w: string, a: nat, m: nat) {
    && |w| <= |input| && input[|input| - |w|..] == w && a <= m <= |w|
    && f == Flow(w[a..m], |input| - |w| + m)
  }

  lemma ReadByte(f: Flow, input: string, w: string, a: nat, m: nat)
    requires Holds(f, input, w, a, m) && m < |w| && GuardOpen(m - a)
    ensures Holds(Next(input, f, ReadInput(1)), input, w, a, m + 1)
  {
    var o := |input| - |w|;
    assert input[o + m] == w[m];
    assert input[o + m..o + m + 1] == [w[m]];
    assert w[a..m + 1] == w[a..m] + [w[m]];
  }

  lemma {:induction false} PourMany(input: string, pre: seq<Step>, w: string, a: nat, m: nat, n: nat)
    requires Holds(Play(input, pre), input, w, a, m) && m + n <= |w| && m + n - a <= BUFFER_SIZE - READ_SIZE
    ensures Holds(Play(input, pre + Pour(n)), input, w, a, m + n)
    decreases n
  {
    hide Holds, Next, Play;
    if n == 0 {
      assert pre + Pour(0) == pre;
    } else {
      PourMany(input, pre, w, a, m, n - 1);
      ReadByte(Play(input, pre + Pour(n - 1)), input, w, a, m + n - 1);
      PlayOne(input, pre + Pour(n - 1), ReadInput(1));
      assert pre + Pour(n) == pre + Pour(n - 1) + [ReadInput(1)];
    }
  }

  /** The next frame of `w` starts at `h` and ends at `e`; the last NUL before it is at `z`. */
  predicate NextFrame(w: string, h: nat, e: nat, z: nat) {
    && z <= h && h + PREFIX_LEN <= e < |w| && e <= h + PREFIX_LEN + MAX_ENCODED
    && FindPrefix(w, 0) == h && EndOf(w, h + PREFIX_LEN) == e && w[e] == BEL && AfterNul(w, h) == z
  }

  lemma RestDrip(w: string, h: nat, e: nat, z: nat, m: nat)
    requires NextFrame(w, h, e, z) && m < e
    ensures Rest(w[From(h, z, m)..m + 1]) == w[From(h, z, m + 1)..m + 1] && GuardOpen(m - From(h, z, m))
  {
    hide FindPrefix, EndOf, OccursAt, AfterNul, Rest, Ending;
    var a := From(h, z, m);
    RestOfPart(w, h, e, a, m + 1);
    if m + 1 < h + PREFIX_LEN { EndingOfPart(w, a, m + 1); }
  }

  lemma EndingOfPart(w: string, a: nat, m: nat)
    requires a <= m <= |w|
    ensures Ending(w[a..m]) == w[if m - a <= PREFIX_LEN then a else m - PREFIX_LEN..m]
  {
    if m - a > PREFIX_LEN { SliceOfPart(w, a, m, m - PREFIX_LEN - a); }
  }

  lemma ParseHeld(f: Flow, input: string, w: string, a: nat, m: nat, a': nat)
    requires Holds(f, input, w, a, m) && a' <= m && Rest(w[a..m]) == w[a'..m]
    ensures Holds(Next(input, f, RunParse), input, w, a', m)
  {
    hide Rest;
  }

  lemma DripOne(f: Flow, input: string, w: string, h: nat, e: nat, z: nat, m: nat)
    requires NextFrame(w, h, e, z) && m < e && Holds(f, input, w, From(h, z, m), m)
    ensures Holds(Next(input, Next(input, f, ReadInput(1)), RunParse), input, w, From(h, z, m + 1), m + 1)
  {
    hide NextFrame, Holds, Next, From, Rest;
    Layers(w, h, e, z);
    RestDrip(w, h, e, z, m);
    ReadByte(f, input, w, From(h, z, m), m);
    ParseHeld(Next(input, f, ReadInput(1)), input, w, From(h, z, m), m + 1, From(h, z, m + 1));
  }

  lemma PlayTwo(input: string, pre: seq<Step>)
    ensures Play(input, pre + [ReadInput(1), RunParse]) == Next(input, Next(input, Play(input, pre), ReadInput(1)), RunParse)
  {
    hide Play, Next;
    PlayOne(input, pre, ReadInput(1));
    PlayOne(input, pre + [ReadInput(1)], RunParse);
    assert pre + [ReadInput(1), RunParse] == pre + [ReadInput(1)] + [RunParse];
  }

  lemma {:induction false} DripMany(input: string, pre: seq<Step>, w: string, h: nat, e: nat, z: nat, m: nat, n: nat)
    requires NextFrame(w, h, e, z) && m + n <= e && Holds(Play(input, pre), input, w, From(h, z, m), m)
    ensures Holds(Play(input, pre + Drip(n)), input, w, From(h, z, m + n), m + n)
    decreases n
  {
    hide Holds, NextFrame, From, Play, Next;
    if n == 0 {
      assert pre + Drip(0) == pre;
    } else {
      Layers(w, h, e, z);
      DripMany(input, pre, w, h, e, z, m, n - 1);
      DripOne(Play(input, pre + Drip(n - 1)), input, w, h, e, z, m + n - 1);
      PlayTwo(input, pre + Drip(n - 1));
      assert pre + Drip(n) == pre + Drip(n - 1) + [ReadInput(1), RunParse];
    }
  }

  lemma Layers(w: string, h: nat, e: nat, z: nat)
    requires NextFrame(w, h, e, z)
    ensures z <= h && h + PREFIX_LEN <= e < |w| && w[e] == BEL
  {
  }

  lemma RestOver(w: string, h: nat, e: nat, z: nat)
    requires NextFrame(w, h, e, z)
    ensures Rest(w[From(h, z, e)..e + 1]) == w[e..e + 1] && GuardOpen(e - From(h, z, e))
  {
    hide FindPrefix, EndOf, OccursAt, AfterNul, Rest, NoFrame;
    RestOfPart(w, h, e, From(h, z, e), e + 1);
    RestShort(w[e..e + 1]);
  }

  lemma HeldLater(f: Flow, input: string, w: string, e: nat, m: nat)
    requires Holds(f, input, w, e, m)
    ensures Holds(f, input, w[e..], 0, m - e)
  {
    assert input[|input| - |w|..][e..] == input[|input| - |w[e..]|..];
    SliceOfPart(w, e, |w|, 0);
    assert w[e..][0..m - e] == w[e..m];
  }

  /** The byte that ends a frame: the frame is taken, and its end stays. */
  lemma DripOver(f: Flow, input: string, w: string, h: nat, e: nat, z: nat)
    requires NextFrame(w, h, e, z) && Holds(f, input, w, From(h, z, e), e)
    ensures e <= |w| && Holds(Next(input, Next(input, f, ReadInput(1)), RunParse), input, w[e..], 0, 1)
  {
    hide NextFrame, Holds, Next, From, Rest;
    Layers(w, h, e, z);
    RestOver(w, h, e, z);
    ReadByte(f, input, w, From(h, z, e), e);
    var f' := Next(input, f, ReadInput(1));
    ParseHeld(f', input, w, From(h, z, e), e + 1, e);
    HeldLater(Next(input, f', RunParse), input, w, e, e + 1);
  }

  lemma RestShort(v: string)
    requires |v| < PREFIX_LEN
    ensures Rest(v) == v
  {
    hide EndOf, AfterNul;
    ShortHoldsNone(v);
    RestNone(v);
  }

  /** Where to begin so that what is kept of the frame fills the buffer up to the guard. */
  lemma StallHere(input: string, pre: seq<Step>, w: string, h: nat, e: nat, z: nat, m: nat) returns (steps: seq<Step>)
    requires NextFrame(w, h, e, z) && m <= 1 && Holds(Play(input, pre), input, w, 0, m)
    requires e - z >= BUFFER_SIZE - READ_SIZE
    ensures Stalled(Play(input, steps))
  {
    hide Holds, FindPrefix, EndOf, AfterNul, OccursAt, Play, Rest;
    var full := BUFFER_SIZE - READ_SIZE;
    var a := if h + PREFIX_LEN - z <= full then z else h + PREFIX_LEN - full;
    DripMany(input, pre, w, h, e, z, m, a + PREFIX_LEN - m);
    var dripped := pre + Drip(a + PREFIX_LEN - m);
    PourMany(input, dripped, w, a, a + PREFIX_LEN, full - PREFIX_LEN);
    steps := dripped + Pour(full - PREFIX_LEN);
    RestOfPart(w, h, e, a, a + full);
    ViewHeld(Play(input, steps), input, w, a, a + full);
  }

  lemma ViewHeld(f: Flow, input: string, w: string, a: nat, m: nat)
    requires Holds(f, input, w, a, m)
    ensures a <= m <= |w| && f.view == w[a..m] && |f.view| == m - a
  {
  }

  predicate ShortTexts(items: seq<Item>) {
    forall i :: 0 <= i < |items| ==> |items[i].text| <= MAX_ENCODED
  }

  /** If a frame and what is kept before it do not fit, some schedule stalls on it. */
  lemma {:induction false} StallSchedule(input: string, pre: seq<Step>, lead: string, items: seq<Item>, tail: string)
    returns (steps: seq<Step>)
    requires FrameEnd(lead) && Clean(items) && ShortTexts(items) && !NoStall(lead, items)
    requires Holds(Play(input, pre), input, Ahead(lead, items, tail), 0, if lead == [] then 0 else 1)
    ensures Stalled(Play(input, steps))
    decreases |items|
  {
    hide Holds, FindPrefix, EndOf, AfterNul, OccursAt, Play, Next, Stalled, Clean, Ahead, PlainText, NoFrame, Head;
    Layout(lead, items, tail);
    var w, h := Ahead(lead, items, tail), |Head(lead, items[0])|;
    var e, z, m := h + PREFIX_LEN + |items[0].text|, AfterNul(w, h), if lead == [] then 0 else 1;
    if Reach(lead, items[0]) >= BUFFER_SIZE - READ_SIZE {
      steps := StallHere(input, pre, w, h, e, z, m);
    } else {
      DripMany(input, pre, w, h, e, z, m, e - m);
      var dripped := pre + Drip(e - m);
      DripOver(Play(input, dripped), input, w, h, e, z);
      PlayTwo(input, dripped);
      RestClean(items);
      steps := StallSchedule(input, dripped + [ReadInput(1), RunParse], FrameEndOf(items[0]), items[1..], tail);
    }
  }

  lemma RestClean(items: seq<Item>)
    requires Clean(items) && items != []
    ensures Clean(items[1..])
  {
  }

  /** Some order of steps ends with the guard shut on a frame that is not complete. */
  ghost predicate CanStall(input: string) {
    exists steps :: Stalled(Play(input, steps))
  }

  /** Reading stops for good under some order of steps if and only if some frame, with what
      is kept before it, does not fit below the reading guard. */
  lemma StallsExactly(items: seq<Item>, tail: string)
    requires Clean(items) && ShortTexts(items) && NoFrame(tail)
    ensures CanStall(Stream(items, tail)) <==> !NoStall([], items)
  {
    hide Stalled, NoFrame, Clean, PlainText, NoStall, Stream, Play;
    var input := Stream(items, tail);
    if NoStall([], items) {
      forall steps ensures !Stalled(Play(input, steps)) { NeverStalls(items, tail, steps); }
    } else {
      Beginning(input);
      assert Ahead([], items, tail) == input;
      var steps := StallSchedule(input, [], [], items, tail);
      assert Stalled(Play(input, steps));
    }
  }

  lemma Beginning(input: string)
    ensures Holds(Play(input, []), input, input, 0, 0)
  {
    assert input[0..] == input;
  }

  // ---------------------------------------------------------------- what a sender can rely on

  /** Garbage shorter than this never stalls the reading, whatever the frames. */
  const MAX_GARBAGE: nat := BUFFER_SIZE - READ_SIZE - MAX_ENCODED - PREFIX_LEN - 11

  lemma {:induction false} ShortGarbage(lead: string, items: seq<Item>)
    requires FrameEnd(lead) && ShortTexts(items)
    requires forall i :: 0 <= i < |items| ==> |items[i].garbage| < MAX_GARBAGE
    ensures NoStall(lead, items)
    decreases |items|
  {
    hide AfterNul;
    EndLetters();
    if items != [] {
      assert |Head(lead, items[0])| <= 3 + |items[0].garbage| + 8;
      ShortGarbage(FrameEndOf(items[0]), items[1..]);
    }
  }

  /** One frame behind more bytes than the guard lets in, with no NUL among them. */
  lemma LongGarbageStalls(g: string, text: string, tail: string)
    requires NoFrame(g) && NUL !in g && PlainText(text) && |text| <= MAX_ENCODED && NoFrame(tail)
    ensures CanStall(Stream([Item(g, false, text)], tail)) <==> |g| + PREFIX_LEN + |text| >= BUFFER_SIZE - READ_SIZE
  {
    hide CanStall, Stream, NoFrame, PlainText;
    var items := [Item(g, false, text)];
    assert Head([], items[0]) == g;
    AfterNulIs(g, |g|, 0);
    assert NoStall(FrameEndOf(items[0]), items[1..]);
    StallsExactly(items, tail);
  }

  /** How often the session reads right after it has parsed, or at first. */
  function Turns(steps: seq<Step>): (n: nat) {
    if steps == [] then 0
    else
      var before, last := steps[..|steps| - 1], steps[|steps| - 1];
      Turns(before) + if last.ReadInput? && last.n > 0 && (before == [] || before[|before| - 1] == RunParse) then 1 else 0
  }

  /** Where reading never stops for good, every turn gets a byte, until all are read. */
  lemma {:induction false} TurnsRead(items: seq<Item>, tail: string, steps: seq<Step>)
    requires Clean(items) && NoFrame(tail) && NoStall([], items)
    ensures var input := Stream(items, tail);
            Play(input, steps).read >= if Turns(steps) < |input| then Turns(steps) else |input|
    decreases |steps|
  {
    hide NoFrame, Clean, NoStall, Stream, Rest;
    if steps != [] {
      var before := steps[..|steps| - 1];
      TurnsRead(items, tail, before);
      NeverStalls(items, tail, before);
    }
  }
}
