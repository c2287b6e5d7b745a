/** Packages from sendPkg to the handlers: framing, base64 and LZ4 together. */
module OscTransport {
  import Base64
  import opened Bytes
  import Lz4Compressor
  import Lz4Format
  import Lz4Spec
  import Lz4Theorems
  import opened Options
  import opened OscFlow
  import opened OscFraming
  import opened OscReceiver
  import opened OscRejects

  /** encodeLz (osc/OscSession.cpp:349-352): any encoder of well-formed blocks that keeps
      to the room it is given; an empty result is its failure. */
  ghost predicate GoodEncoder(lz: seq<byte> -> seq<byte>) {
    forall p ::
      && |lz(p)| <= MAX_ENCODED
      && (lz(p) != [] ==> Lz4Format.IsBlock(lz(p), [], p, 0))
  }

  /** An encoder that does not fail and keeps to the documented bound (lz/lz4.h:213). */
  ghost predicate KeepsBound(lz: seq<byte> -> seq<byte>) {
    forall p :: p != [] ==> 0 < |lz(p)| <= Lz4Compressor.CompressBound(|p|)
  }

  /** Up to 6143 bytes have fewer letters than the text may have. */
  lemma LettersFit(n: nat)
    ensures Base64.Base64Chars(n) < MAX_ENCODED <==> n <= 6143
  {
  }

  class Sender {
    var out: string
    var resets: nat
    const lz: seq<byte> -> seq<byte>

    constructor (lz: seq<byte> -> seq<byte>)
      ensures this.lz == lz && out == "" && resets == 0
    {
      this.lz := lz;
      out, resets := "", 0;
    }

    method SendData(prefix: string, text: string, suffix: string)
      modifies this`out
      ensures out == old(out) + (prefix + text + suffix)
    {
      out := out + prefix;
      out := out + text;
      out := out + suffix;
    }

    /** sendPkg (osc/OscSession.cpp:319-345): a block of 1 to 6143 bytes goes out as one whole
        frame; an empty or a longer one posts RESET. */
    method SendPkg(payload: seq<byte>, inTmux: bool)
      requires |lz(payload)| <= MAX_ENCODED
      modifies this
      ensures if 0 < |lz(payload)| <= 6143 then
                out == old(out) + Frame(Base64.Encode(lz(payload)), inTmux) && resets == old(resets)
              else out == old(out) && resets == old(resets) + 1
    {
      hide Base64.Encode, PREFIX, SUFFIX, TMUX_PREFIX, TMUX_SUFFIX;
      var xz := lz(payload);
      LettersFit(|xz|);
      if |xz| == 0 { resets := resets + 1; return; }
      if Base64.Base64Chars(|xz|) >= MAX_ENCODED { resets := resets + 1; return; }
      var base64 := new char[MAX_ENCODED](_ => NUL);
      Base64.EncodingFits(xz, MAX_ENCODED);
      var base64Len := Base64.Base64Encode(xz, base64);
      var text := base64[..base64Len];
      if inTmux {
        SendData(TMUX_PREFIX, text, TMUX_SUFFIX);
      } else {
        SendData(PREFIX, text, SUFFIX);
      }
    }
  }

  /** A package that was sent, after bytes that are none. */
  datatype Sent = Sent(garbage: string, inTmux: bool, payload: seq<byte>)

  ghost predicate Sendable(lz: seq<byte> -> seq<byte>, sent: seq<Sent>) {
    forall i :: 0 <= i < |sent| ==>
      NoFrame(sent[i].garbage) && 0 < |lz(sent[i].payload)| <= 6143 && 0 < |sent[i].payload| <= MAX_ENCODED
  }

  function Wire(lz: seq<byte> -> seq<byte>, sent: seq<Sent>): (items: seq<Item>) {
    seq(|sent|, i requires 0 <= i < |sent| =>
      Item(sent[i].garbage, sent[i].inTmux, Base64.Encode(lz(sent[i].payload))))
  }

  /** One package, encoded and decoded. */
  lemma SentIsPackage(lz: seq<byte> -> seq<byte>, payload: seq<byte>)
    requires GoodEncoder(lz) && 0 < |lz(payload)| <= 6143 && 0 < |payload| <= MAX_ENCODED
    ensures PlainText(Base64.Encode(lz(payload))) && Payload(Base64.Encode(lz(payload))) == Some(payload)
  {
    var xz := lz(payload);
    var text := Base64.Encode(xz);
    hide Base64.Encode, Base64.Decode, Lz4Format.IsBlock, Lz4Spec.Decompress;
    forall k | 0 <= k < |text| ensures text[k] != BEL && text[k] != NUL { Base64.EncodeIsPlain(xz, k); }
    LettersFit(|xz|);
    Base64.EncodingFits(xz, MAX_ENCODED);
    Base64.DecodeInvertsEncode(xz);
    Lz4Theorems.BlockDecodes(xz, [], payload, 0, MAX_ENCODED);
    assert [] + payload == payload;
  }

  /** Framing loses nothing: for every list of packages and any bytes between them that
      contain no frame start, the stream reads as exactly those packages, in order. */
  lemma SentArrives(lz: seq<byte> -> seq<byte>, sent: seq<Sent>, tail: string)
    requires GoodEncoder(lz) && Sendable(lz, sent) && NoFrame(tail)
    ensures var texts := Parse(Stream(Wire(lz, sent), tail));
            && AllPackages(texts) && |texts| == |sent|
            && forall i :: 0 <= i < |sent| ==> Payloads(texts)[i] == sent[i].payload
  {
    var items := Wire(lz, sent);
    hide Parse, NoFrame, PlainText, Payload, GoodEncoder;
    forall i | 0 <= i < |sent|
      ensures PlainText(items[i].text) && Payload(items[i].text) == Some(sent[i].payload)
    {
      SentIsPackage(lz, sent[i].payload);
    }
    ParseStream([], items, tail);
    assert [] + Stream(items, tail) == Stream(items, tail);
    var texts := Texts(items);
    assert forall i :: 0 <= i < |texts| ==> texts[i] == items[i].text;
  }

  lemma WireIsClean(lz: seq<byte> -> seq<byte>, sent: seq<Sent>)
    requires GoodEncoder(lz) && Sendable(lz, sent)
    ensures Clean(Wire(lz, sent)) && ShortTexts(Wire(lz, sent))
  {
    hide NoFrame, PlainText, Payload, GoodEncoder;
    forall i | 0 <= i < |sent|
      ensures PlainText(Wire(lz, sent)[i].text) && |Wire(lz, sent)[i].text| <= MAX_ENCODED
    {
      SentIsPackage(lz, sent[i].payload);
      LettersFit(|lz(sent[i].payload)|);
      Base64.EncodingFits(lz(sent[i].payload), MAX_ENCODED);
    }
  }

  /** With an encoder that keeps the bound, every package of up to 6100 bytes is sent. */
  lemma SmallIsSent(lz: seq<byte> -> seq<byte>, sent: seq<Sent>)
    requires GoodEncoder(lz) && KeepsBound(lz)
    requires forall i :: 0 <= i < |sent| ==> NoFrame(sent[i].garbage) && 0 < |sent[i].payload| <= 6100
    ensures Sendable(lz, sent)
  {
    hide NoFrame, GoodEncoder;
  }

  predicate EndsParsed(steps: seq<Step>) {
    steps != [] && steps[|steps| - 1] == RunParse
  }

  /** A whole transfer, with reads of any size and parses in any order. No text is refused,
      and what was handed over are the first of the packages sent: all of them once
      everything is read and parsed. That happens under every schedule with enough turns to
      read, if each frame fits below the reading guard together with the bytes kept before
      it. */
  method Exchange(lz: seq<byte> -> seq<byte>, sent: seq<Sent>, tail: string, steps: seq<Step>)
    returns (receiver: ReceiveBuffer, read: nat)
    requires GoodEncoder(lz) && Sendable(lz, sent) && NoFrame(tail)
    ensures receiver.resets == 0 && |receiver.payloads| <= |sent| && read <= |Stream(Wire(lz, sent), tail)|
    ensures forall i :: 0 <= i < |receiver.payloads| ==> receiver.payloads[i] == sent[i].payload
    ensures EndsParsed(steps) && read == |Stream(Wire(lz, sent), tail)| ==> |receiver.payloads| == |sent|
    ensures EndsParsed(steps) && NoStall([], Wire(lz, sent)) && Turns(steps) >= |Stream(Wire(lz, sent), tail)| ==>
              |receiver.payloads| == |sent|
  {
    hide Parse, NoFrame, Payload, GoodEncoder, Stream, Wire, Sendable, Play, Rest, NoStall, Turns, Clean, ShortTexts,
         AllPackages, Payloads, Delivered, Rejections, Reads, PlayAll;
    var input := Stream(Wire(lz, sent), tail);
    SentArrives(lz, sent, tail);
    receiver := new ReceiveBuffer();
    ghost var s := PlayAll(input, steps);
    var overrun;
    read, overrun := receiver.Transport(input, steps);
    assert s.flow.view[0..] == s.flow.view;
    SentSoFar(lz, sent, tail, read, s.texts, s.flow.view);
    if EndsParsed(steps) { ParsedLast(input, steps); }
    if NoStall([], Wire(lz, sent)) {
      WireIsClean(lz, sent);
      TurnsRead(Wire(lz, sent), tail, steps);
    }
  }

  lemma ParsedLast(input: string, steps: seq<Step>)
    requires EndsParsed(steps)
    ensures Parse(Play(input, steps).view) == []
  {
    hide Rest, Parse, Play;
    var n := |steps| - 1;
    PlayNext(input, steps, n);
    assert steps[..n + 1] == steps;
    RestWaits(Play(input, steps[..n]).view);
  }

  /** The texts read so far are the first of those sent, and all if nothing is left. */
  lemma SentSoFar(lz: seq<byte> -> seq<byte>, sent: seq<Sent>, tail: string, read: nat, texts: seq<string>, view: string)
    requires GoodEncoder(lz) && Sendable(lz, sent) && NoFrame(tail) && read <= |Stream(Wire(lz, sent), tail)|
    requires Reads(Stream(Wire(lz, sent), tail)[..read], texts, view)
    ensures AllPackages(texts) && Rejections(texts) == 0 && |Delivered(texts)| == |texts| <= |sent|
    ensures forall i :: 0 <= i < |texts| ==> Delivered(texts)[i] == sent[i].payload
    ensures read == |Stream(Wire(lz, sent), tail)| && Parse(view) == [] ==> |texts| == |sent|
  {
    hide Parse, NoFrame, Payload, GoodEncoder, Stream, Wire, Sendable, Delivered, Rejections;
    var input := Stream(Wire(lz, sent), tail);
    SentArrives(lz, sent, tail);
    var rest := input[read..];
    assert input[..read] + rest == input;
    assert Parse(input[..read] + rest) == texts + Parse(view + rest);
    assert rest == [] ==> view + rest == view;
    forall i | 0 <= i < |texts| ensures Payload(texts[i]) == Some(sent[i].payload) {
      assert texts[i] == Parse(input)[i] && Payloads(Parse(input))[i] == sent[i].payload;
    }
    DeliveredAll(texts);
  }

  /** Some schedule stops a session for good exactly if a frame does not fit below the
      reading guard together with what is kept before it. */
  lemma SentStalls(lz: seq<byte> -> seq<byte>, sent: seq<Sent>, tail: string)
    requires GoodEncoder(lz) && Sendable(lz, sent) && NoFrame(tail)
    ensures CanStall(Stream(Wire(lz, sent), tail)) <==> !NoStall([], Wire(lz, sent))
  {
    hide GoodEncoder, Sendable, NoFrame, Wire, CanStall, Stream, NoStall, Clean, ShortTexts;
    WireIsClean(lz, sent);
    StallsExactly(Wire(lz, sent), tail);
  }

  /** With less garbage than MAX_GARBAGE before each package, none does. */
  lemma ShortGarbageArrives(lz: seq<byte> -> seq<byte>, sent: seq<Sent>)
    requires GoodEncoder(lz) && Sendable(lz, sent)
    requires forall i :: 0 <= i < |sent| ==> |sent[i].garbage| < MAX_GARBAGE
    ensures NoStall([], Wire(lz, sent))
  {
    hide GoodEncoder, NoFrame, Clean;
    WireIsClean(lz, sent);
    ShortGarbage([], Wire(lz, sent));
  }
}
