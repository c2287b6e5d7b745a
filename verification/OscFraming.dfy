/** The packages of osc/osc.h on the wire: frames around base64 text, with anything that
    is not a frame in between, and what a reader of the whole stream sees. */
module OscFraming {
  const NUL: char := '\0'
  const ESC: char := '\U{1b}'
  const BEL: char := '\U{07}'

  // osc/osc.h:4-18
  const PREFIX: string := "\U{1b}] putty-nd;"
  const PREFIX_LEN: nat := 12
  const SUFFIX: string := "\U{07}"
  const TMUX_PREFIX: string := "\U{1b}Ptmux;\U{1b}\U{1b}] putty-nd;"
  const TMUX_SUFFIX: string := "\U{07}\U{1b}\\"
  const MAX_ENCODED: nat := 8192

  // ---------------------------------------------------------------- the whole stream

  predicate OccursAt(s: string, p: nat) {
    p + PREFIX_LEN <= |s| && s[p..p + PREFIX_LEN] == PREFIX
  }

  /** The first frame start at or after `from`, or the end. */
  function FindPrefix(s: string, from: nat): (p: nat)
    requires from <= |s|
    ensures from <= p <= |s| && (p < |s| ==> OccursAt(s, p))
    ensures forall q :: from <= q < p ==> !OccursAt(s, q)
    decreases |s| - from
  {
    if from == |s| || OccursAt(s, from) then from else FindPrefix(s, from + 1)
  }

  /** Where the text that starts at `from` stops: at BEL, at NUL or at the end. */
  function EndOf(s: string, from: nat): (e: nat)
    requires from <= |s|
    ensures from <= e <= |s|
    decreases |s| - from
  {
    if from == |s| || s[from] == BEL || s[from] == NUL then from else EndOf(s, from + 1)
  }

  /** The texts of the complete frames of a stream, in order. */
  function Parse(s: string): (texts: seq<string>)
    decreases |s|
  {
    var p := FindPrefix(s, 0);
    if p == |s| then []
    else
      var e := EndOf(s, p + PREFIX_LEN);
      if e < |s| && s[e] == BEL then [s[p + PREFIX_LEN..e]] + Parse(s[e..]) else []
  }

  lemma OccursShift(s: string, a: nat, q: nat)
    requires a <= |s|
    ensures OccursAt(s, a + q) <==> OccursAt(s[a..], q)
  {
    if a + q + PREFIX_LEN <= |s| {
      assert s[a + q..a + q + PREFIX_LEN] == s[a..][q..q + PREFIX_LEN];
    }
  }

  lemma OccursMore(b: string, more: string, q: nat)
    requires q + PREFIX_LEN <= |b|
    ensures OccursAt(b + more, q) <==> OccursAt(b, q)
  {
    assert (b + more)[q..q + PREFIX_LEN] == b[q..q + PREFIX_LEN];
  }

  lemma FindHere(s: string, p: nat)
    requires p <= |s| && OccursAt(s, p)
    ensures FindPrefix(s, p) == p < |s|
  {
  }

  lemma {:induction false} FindShift(s: string, a: nat, q: nat)
    requires a + q <= |s|
    ensures FindPrefix(s, a + q) == a + FindPrefix(s[a..], q)
    decreases |s| - q
  {
    hide OccursAt;
    OccursShift(s, a, q);
    if a + q < |s| { FindShift(s, a, q + 1); }
  }

  lemma {:induction false} FindSkip(s: string, from: nat, a: nat)
    requires from <= a <= |s| && forall q :: from <= q < a ==> !OccursAt(s, q)
    ensures FindPrefix(s, from) == FindPrefix(s, a)
    decreases a - from
  {
    hide OccursAt;
    if from < a { FindSkip(s, from + 1, a); }
  }

  lemma {:induction false} EndShift(s: string, a: nat, from: nat)
    requires a + from <= |s|
    ensures EndOf(s, a + from) == a + EndOf(s[a..], from)
    decreases |s| - from
  {
    if a + from < |s| { EndShift(s, a, from + 1); }
  }

  lemma {:induction false} EndStops(s: string, from: nat)
    requires from <= |s|
    ensures EndOf(s, from) < |s| ==> s[EndOf(s, from)] == BEL || s[EndOf(s, from)] == NUL
    decreases |s| - from
  {
    if from < |s| { EndStops(s, from + 1); }
  }

  lemma {:induction false} EndIs(s: string, from: nat, e: nat)
    requires from <= e < |s| && (s[e] == BEL || s[e] == NUL)
    requires forall k :: from <= k < e ==> s[k] != BEL && s[k] != NUL
    ensures EndOf(s, from) == e
    decreases e - from
  {
    if from < e { EndIs(s, from + 1, e); }
  }

  lemma ParseOne(s: string, p: nat, e: nat)
    requires p == FindPrefix(s, 0) < |s| && e == EndOf(s, p + PREFIX_LEN) < |s| && s[e] == BEL
    ensures Parse(s) == [s[p + PREFIX_LEN..e]] + Parse(s[e..])
  {
    hide FindPrefix, EndOf, OccursAt;
  }

  lemma ParseNone(s: string, p: nat)
    requires p == FindPrefix(s, 0)
    requires p < |s| ==> var e := EndOf(s, p + PREFIX_LEN); e == |s| || s[e] == NUL
    ensures Parse(s) == []
  {
    hide FindPrefix, EndOf, OccursAt;
  }

  /** Bytes in which no frame starts change nothing. */
  lemma ParseSkip(s: string, a: nat)
    requires a <= |s| && forall q :: 0 <= q < a ==> !OccursAt(s, q)
    ensures Parse(s) == Parse(s[a..])
  {
    hide FindPrefix, EndOf, OccursAt, Parse;
    FindSkip(s, 0, a);
    FindShift(s, a, 0);
    var t := s[a..];
    var p := FindPrefix(t, 0);
    if p == |t| {
      ParseNone(t, p);
      ParseNone(s, a + p);
    } else {
      PrefixFits(t, p);
      ParseSame(s, t, a, p);
    }
  }

  lemma PrefixFits(s: string, p: nat)
    requires OccursAt(s, p)
    ensures p + PREFIX_LEN <= |s|
  {
  }

  lemma Slices<T>(s: seq<T>, t: seq<T>, a: nat, x: nat, y: nat)
    requires a <= |s| && t == s[a..] && x <= y <= |t|
    ensures t[x..y] == s[a + x..a + y] && t[y..] == s[a + y..]
  {
    assert |t[x..y]| == |s[a + x..a + y]|;
    forall k | 0 <= k < y - x ensures t[x..y][k] == s[a + x..a + y][k] { assert t[x + k] == s[a + x + k]; }
  }

  lemma ParseSame(s: string, t: string, a: nat, p: nat)
    requires a <= |s| && t == s[a..] && p == FindPrefix(t, 0) < |t| && a + p == FindPrefix(s, 0)
    ensures Parse(s) == Parse(t)
  {
    hide *;
    var e := EndSame(s, t, a, p);
    ParseSameTo(s, t, a, p, e);
  }

  lemma EndSame(s: string, t: string, a: nat, p: nat) returns (e: nat)
    requires a <= |s| && t == s[a..] && OccursAt(t, p)
    ensures p + PREFIX_LEN <= e <= |t| && e == EndOf(t, p + PREFIX_LEN) && a + e == EndOf(s, a + p + PREFIX_LEN)
  {
    hide OccursAt, EndOf;
    PrefixFits(t, p);
    e := EndOf(t, p + PREFIX_LEN);
    EndShift(s, a, p + PREFIX_LEN);
  }

  lemma ParseSameTo(s: string, t: string, a: nat, p: nat, e: nat)
    requires a <= |s| && t == s[a..] && p == FindPrefix(t, 0) < |t| && a + p == FindPrefix(s, 0) && p + PREFIX_LEN <= e <= |t|
    requires e == EndOf(t, p + PREFIX_LEN) && a + e == EndOf(s, a + p + PREFIX_LEN)
    ensures Parse(s) == Parse(t)
  {
    hide *;
    if e < |t| && t[e] == BEL {
      ParseOne(t, p, e);
      ParseOne(s, a + p, a + e);
      Slices(s, t, a, p + PREFIX_LEN, e);
    } else {
      EndStops(t, p + PREFIX_LEN);
      ParseNone(t, p);
      ParseNone(s, a + p);
    }
  }

  /** Reading `a` delivers `texts` and leaves `b` to be read, whatever follows. */
  ghost predicate Reads(a: string, texts: seq<string>, b: string) {
    forall more :: Parse(a + more) == texts + Parse(b + more)
  }

  lemma ReadsTrans(a: string, t: seq<string>, b: string, u: seq<string>, c: string)
    requires Reads(a, t, b) && Reads(b, u, c)
    ensures Reads(a, t + u, c)
  {
    hide Parse;
    forall more ensures Parse(a + more) == t + u + Parse(c + more) {
      assert t + (u + Parse(c + more)) == t + u + Parse(c + more);
    }
  }

  lemma ReadsMore(a: string, t: seq<string>, b: string, x: string)
    requires Reads(a, t, b)
    ensures Reads(a + x, t, b + x)
  {
    hide Parse;
    forall more ensures Parse(a + x + more) == t + Parse(b + x + more) {
      assert a + x + more == a + (x + more) && b + x + more == b + (x + more);
    }
  }

  /** A complete frame at the front of what is left. */
  lemma ReadsFrame(b: string, p: nat, e: nat)
    requires OccursAt(b, p) && forall q :: 0 <= q < p ==> !OccursAt(b, q)
    requires p + PREFIX_LEN <= e < |b| && b[e] == BEL
    requires forall k :: p + PREFIX_LEN <= k < e ==> b[k] != BEL && b[k] != NUL
    ensures Reads(b, [b[p + PREFIX_LEN..e]], b[e..])
  {
    hide EndOf, FindPrefix, Parse, OccursAt;
    forall more ensures Parse(b + more) == [b[p + PREFIX_LEN..e]] + Parse(b[e..] + more) {
      var w := b + more;
      forall q | 0 <= q <= p ensures OccursAt(w, q) <==> OccursAt(b, q) { OccursMore(b, more, q); }
      FindSkip(w, 0, p);
      FindHere(w, p);
      EndIs(w, p + PREFIX_LEN, e);
      ParseOne(w, p, e);
      assert w[p + PREFIX_LEN..e] == b[p + PREFIX_LEN..e] && w[e..] == b[e..] + more;
    }
  }

  /** Bytes in which no frame can start, whatever follows. */
  lemma ReadsNothing(b: string, a: nat)
    requires a <= |b| && forall more, q :: 0 <= q < a ==> !OccursAt(b + more, q)
    ensures Reads(b, [], b[a..])
  {
    hide OccursAt, Parse;
    forall more ensures Parse(b + more) == [] + Parse(b[a..] + more) {
      ParseSkip(b + more, a);
      assert (b + more)[a..] == b[a..] + more;
    }
  }

  // ---------------------------------------------------------------- what a sender writes

  /** One package on the wire, after bytes that belong to no package. */
  datatype Item = Item(garbage: string, inTmux: bool, text: string)

  /** sendPkg's output (osc/OscSession.cpp:335-344). */
  function Frame(text: string, inTmux: bool): string {
    if inTmux then TMUX_PREFIX + text + TMUX_SUFFIX else PREFIX + text + SUFFIX
  }

  function Stream(items: seq<Item>, tail: string): (s: string) {
    if items == [] then tail
    else items[0].garbage + Frame(items[0].text, items[0].inTmux) + Stream(items[1..], tail)
  }

  function Texts(items: seq<Item>): (texts: seq<string>) {
    seq(|items|, i requires 0 <= i < |items| => items[i].text)
  }

  predicate NoFrame(g: string) {
    forall q :: 0 <= q < |g| ==> !OccursAt(g, q)
  }

  predicate PlainText(text: string) {
    forall k :: 0 <= k < |text| ==> text[k] != BEL && text[k] != NUL
  }

  predicate Clean(items: seq<Item>) {
    forall i :: 0 <= i < |items| ==> NoFrame(items[i].garbage) && PlainText(items[i].text)
  }

  lemma PrefixLetters()
    ensures |PREFIX| == PREFIX_LEN && PREFIX[0] == ESC && PREFIX[1] == ']'
    ensures forall k :: 1 <= k < PREFIX_LEN ==> PREFIX[k] != ESC
    ensures forall k :: 0 <= k < PREFIX_LEN ==> PREFIX[k] != BEL && PREFIX[k] != NUL
  {
  }

  lemma EndLetters()
    ensures SUFFIX == [BEL] && TMUX_SUFFIX == [BEL, ESC, '\\']
  {
  }

  lemma OccursLetter(s: string, q: nat, k: nat)
    requires OccursAt(s, q) && k < PREFIX_LEN
    ensures q + k < |s| && s[q + k] == PREFIX[k]
  {
    assert s[q + k] == s[q..q + PREFIX_LEN][k];
  }

  /** A frame starts with ESC and holds no other: none can straddle what precedes one. */
  lemma NoStraddle(g: string, rest: string, q: nat)
    requires NoFrame(g) && (rest == [] || rest[0] == ESC) && q < |g|
    ensures !OccursAt(g + rest, q)
  {
    hide OccursAt;
    PrefixLetters();
    if OccursAt(g + rest, q) {
      if q + PREFIX_LEN <= |g| {
        OccursMore(g, rest, q);
      } else {
        OccursLetter(g + rest, q, PREFIX_LEN - 1);
        OccursLetter(g + rest, q, |g| - q);
      }
    }
  }

  lemma NoFrameJoin(g: string, h: string)
    requires NoFrame(g) && NoFrame(h) && (h == [] || h[0] == ESC)
    ensures NoFrame(g + h)
  {
    hide OccursAt;
    forall q | 0 <= q < |g + h| ensures !OccursAt(g + h, q) {
      if q < |g| {
        NoStraddle(g, h, q);
      } else {
        assert (g + h)[|g|..] == h;
        OccursShift(g + h, |g|, q - |g|);
      }
    }
  }

  /** What a frame leaves behind for the next one: its own end. */
  predicate FrameEnd(lead: string) {
    lead == [] || lead == SUFFIX || lead == TMUX_SUFFIX
  }

  lemma NoFrameAfter(lead: string, g: string)
    requires FrameEnd(lead) && NoFrame(g)
    ensures NoFrame(lead + g)
  {
    hide OccursAt;
    PrefixLetters();
    EndLetters();
    forall q | 0 <= q < |lead + g| ensures !OccursAt(lead + g, q) {
      if q < |lead| {
        if OccursAt(lead + g, q) {
          OccursLetter(lead + g, q, 0);
          OccursLetter(lead + g, q, 1);
        }
      } else {
        assert (lead + g)[|lead|..] == g;
        OccursShift(lead + g, |lead|, q - |lead|);
      }
    }
  }

  lemma FrameBytes(text: string, rest: string)
    requires PlainText(text)
    ensures var s, e := PREFIX + text + SUFFIX + rest, PREFIX_LEN + |text|;
            && e < |s| && s[e] == BEL && s[PREFIX_LEN..e] == text && s[e..] == SUFFIX + rest && OccursAt(s, 0)
            && forall k :: PREFIX_LEN <= k < e ==> s[k] != BEL && s[k] != NUL
  {
    PrefixLetters();
    EndLetters();
    hide PREFIX, SUFFIX;
    var s, e := PREFIX + text + SUFFIX + rest, PREFIX_LEN + |text|;
    assert s[0..PREFIX_LEN] == PREFIX;
    forall k | PREFIX_LEN <= k < e ensures s[k] != BEL && s[k] != NUL { assert s[k] == text[k - PREFIX_LEN]; }
  }

  /** A reader that is at the frame's own prefix. */
  lemma ParseFrame(text: string, rest: string)
    requires PlainText(text)
    ensures Parse(PREFIX + text + SUFFIX + rest) == [text] + Parse(SUFFIX + rest)
  {
    hide *;
    var s := PREFIX + text + SUFFIX + rest;
    FrameBytes(text, rest);
    FindHere(s, 0);
    EndIs(s, PREFIX_LEN, PREFIX_LEN + |text|);
    ParseOne(s, 0, PREFIX_LEN + |text|);
  }

  lemma ParseAfter(g: string, rest: string)
    requires NoFrame(g) && (rest == [] || rest[0] == ESC)
    ensures Parse(g + rest) == Parse(rest)
  {
    hide OccursAt, Parse, NoFrame;
    forall q | 0 <= q < |g| ensures !OccursAt(g + rest, q) { NoStraddle(g, rest, q); }
    ParseSkip(g + rest, |g|);
    assert (g + rest)[|g|..] == rest;
  }

  lemma TmuxParts()
    ensures exists lead :: |lead| == 8 && lead[0] == ESC && TMUX_PREFIX == lead + PREFIX
    ensures TMUX_SUFFIX == SUFFIX + [ESC, '\\']
  {
    var lead := "\U{1b}Ptmux;\U{1b}";
    assert TMUX_PREFIX == lead + PREFIX;
  }

  /** For every list of packages, with any bytes between them that contain no frame start:
      a reader of the whole stream gets exactly their texts, in order. */
  lemma {:induction false} ParseStream(lead: string, items: seq<Item>, tail: string)
    requires FrameEnd(lead) && Clean(items) && NoFrame(tail)
    ensures Parse(lead + Stream(items, tail)) == Texts(items)
    decreases |items|
  {
    hide Parse, NoFrame, PlainText, Frame, PREFIX, SUFFIX, TMUX_PREFIX, TMUX_SUFFIX;
    if items == [] {
      NoFrameAfter(lead, tail);
      ParseAfter(lead + tail, []);
      assert lead + tail + [] == lead + tail;
      ParseNone([], 0);
      assert Texts(items) == [];
    } else {
      var it, rest := items[0], Stream(items[1..], tail);
      NoFrameAfter(lead, it.garbage);
      ParseOneItem(lead + it.garbage, it, rest);
      Regroup(lead, it.garbage, Frame(it.text, it.inTmux), rest);
      ParseStream(if it.inTmux then TMUX_SUFFIX else SUFFIX, items[1..], tail);
      assert Texts(items) == [it.text] + Texts(items[1..]);
    }
  }

  lemma Regroup(a: string, b: string, c: string, d: string)
    ensures a + (b + c + d) == a + b + c + d
  {
  }

  lemma ParseOneItem(g: string, it: Item, rest: string)
    requires NoFrame(g) && PlainText(it.text)
    ensures Parse(g + Frame(it.text, it.inTmux) + rest)
         == [it.text] + Parse((if it.inTmux then TMUX_SUFFIX else SUFFIX) + rest)
  {
    hide Parse, PlainText;
    PrefixLetters();
    var body := PREFIX + it.text + SUFFIX;
    if it.inTmux {
      TmuxParts();
      var lead :| |lead| == 8 && lead[0] == ESC && TMUX_PREFIX == lead + PREFIX;
      var end := [ESC, '\\'] + rest;
      NoFrameJoin(g, lead);
      assert body + end == [ESC] + (body + end)[1..];
      ParseAfter(g + lead, body + end);
      ParseFrame(it.text, end);
      assert g + Frame(it.text, it.inTmux) + rest == g + lead + (body + end);
      assert TMUX_SUFFIX + rest == SUFFIX + end;
    } else {
      assert body + rest == [ESC] + (body + rest)[1..];
      ParseAfter(g, body + rest);
      ParseFrame(it.text, rest);
      assert g + Frame(it.text, it.inTmux) + rest == g + (body + rest);
    }
  }
}
