/** base64/base64.c against section 4 of RFC 4648. */
module Base64 {
  import opened Arithmetic
  import opened Bytes

  function Table(): (t: string) {
    "ABCDEFGHIJKLMNOPQRSTUVWXYZ" + "abcdefghijklmnopqrstuvwxyz" + "0123456789+/"
  }

  const PAD: char := '='

  // ---------------------------------------------------------------- the alphabet

  /** The letter of a 6-bit value. */
  function Letter(v: int): (c: char)
    requires 0 <= v < 64
  {
    if v < 26 then ('A' as int + v) as char
    else if v < 52 then ('a' as int + (v - 26)) as char
    else if v < 62 then ('0' as int + (v - 52)) as char
    else if v == 62 then '+' else '/'
  }

  /** The 6-bit value of a letter, -1 for any other character. */
  function Value(c: char): (v: int)
    ensures -1 <= v < 64
    ensures 0 <= v ==> Letter(v) == c
  {
    if 'A' <= c <= 'Z' then c as int - 'A' as int
    else if 'a' <= c <= 'z' then c as int - 'a' as int + 26
    else if '0' <= c <= '9' then c as int - '0' as int + 52
    else if c == '+' then 62 else if c == '/' then 63 else -1
  }

  lemma TableLetter(v: int)
    requires 0 <= v < 64
    ensures |Table()| == 64 && Table()[v] == Letter(v)
  {
    assert |Table()| == 64;
  }

  lemma ValueInvertsLetter(v: int)
    requires 0 <= v < 64
    ensures Value(Letter(v)) == v && Letter(v) != PAD
  {
  }

  /** strchr of the C library: the index of the first `c`, the terminating NUL included,
      or -1. */
  function StrChr(s: string, c: char): (r: int)
    ensures -1 <= r <= |s|
    ensures r == -1 <==> c !in s && c != '\0'
    ensures 0 <= r < |s| ==> s[r] == c && c !in s[..r]
    ensures r == |s| ==> c == '\0'
  {
    if s == [] then (if c == '\0' then 0 else -1)
    else if s[0] == c then 0
    else
      var r := StrChr(s[1..], c);
      if r == -1 then -1 else r + 1
  }

  lemma StrChrIsValue(t: string, c: char)
    requires t == Table() && c != '\0'
    ensures StrChr(t, c) == Value(c)
  {
    hide Table, StrChr, Letter, Value;
    var r, v := StrChr(t, c), Value(c);
    TableLetter(0);
    if 0 <= v { TableLetter(v); assert t[v] == c; }
    if 0 <= r < 64 { TableLetter(r); ValueInvertsLetter(r); }
  }

  // ---------------------------------------------------------------- RFC 4648, section 4

  /** Byte `k`, or the zero bits that fill the last group. */
  function ByteOr0(s: seq<byte>, k: nat): byte {
    if k < |s| then s[k] else 0
  }

  /** The 6 bits at bit position `6 * j`. */
  function Sextet(s: seq<byte>, j: nat): (v: int)
    ensures 0 <= v < 64
  {
    var k := j / 4 * 3;
    match j % 4
    case 0 => ByteOr0(s, k) / 4
    case 1 => ByteOr0(s, k) % 4 * 16 + ByteOr0(s, k + 1) / 16
    case 2 => ByteOr0(s, k + 1) % 16 * 4 + ByteOr0(s, k + 2) / 64
    case _ => ByteOr0(s, k + 2) % 64
  }

  /** How many letters hold `n` bytes: the macro BASE64_CHARS (base64/base64.h:14-15). */
  function Base64Chars(n: nat): (r: nat) {
    (n * 4 + 2) / 3
  }

  function Padding(n: nat): (p: string) {
    if n % 3 == 1 then [PAD, PAD] else if n % 3 == 2 then [PAD] else []
  }

  lemma EncodedLength(n: nat)
    ensures Base64Chars(n) + |Padding(n)| == (n + 2) / 3 * 4
  {
    var g := n / 3;
    assert n == 3 * g + n % 3;
  }

  function Letters(s: seq<byte>, m: nat): (t: string)
    ensures |t| == m
  {
    seq(m, j requires 0 <= j < m => Letter(Sextet(s, j)))
  }

  function Encode(s: seq<byte>): (t: string)
    ensures |t| == (|s| + 2) / 3 * 4
  {
    EncodedLength(|s|);
    Letters(s, Base64Chars(|s|)) + Padding(|s|)
  }

  /** The value of character `i`; the padding counts as zero bits. */
  function At(t: string, i: nat): (v: int)
    requires i < |t|
    ensures 0 <= v < 64
  {
    if t[i] == PAD || Value(t[i]) < 0 then 0 else Value(t[i])
  }

  /** The byte that character `i`, the second, third or fourth of its group, completes. */
  function ByteAt(t: string, i: nat): (b: byte)
    requires 0 < i < |t| && i % 4 != 0
  {
    match i % 4
    case 1 => At(t, i - 1) * 4 + At(t, i) / 16
    case 2 => At(t, i - 1) % 16 * 16 + At(t, i) / 4
    case _ => At(t, i - 1) % 4 * 64 + At(t, i)
  }

  function BytesUpTo(t: string, n: nat): (s: seq<byte>)
    requires n <= |t|
    ensures |s| <= n * 3 / 4
  {
    if n == 0 then []
    else BytesUpTo(t, n - 1) + if (n - 1) % 4 != 0 && t[n - 1] != PAD then [ByteAt(t, n - 1)] else []
  }

  /** The bits of the last character that complete no byte. */
  function Leftover(t: string, n: nat): (v: int)
    requires n <= |t|
    ensures 0 <= v < 64
  {
    match n % 4
    case 0 => 0
    case 1 => At(t, n - 1)
    case 2 => At(t, n - 1) % 16
    case _ => At(t, n - 1) % 4
  }

  datatype Decoded = Data(bytes: seq<byte>) | Invalid

  predicate Readable(t: string, n: nat)
    requires n <= |t|
  {
    forall i :: 0 <= i < n ==> t[i] == PAD || 0 <= Value(t[i])
  }

  function Decode(t: string): (r: Decoded) {
    if Readable(t, |t|) && Leftover(t, |t|) == 0 then Data(BytesUpTo(t, |t|)) else Invalid
  }

  lemma SextetOf(src: seq<byte>, g: nat, c: nat)
    requires c < 4
    ensures c == 0 ==> Sextet(src, g * 4 + c) == ByteOr0(src, g * 3) / 4
    ensures c == 1 ==> Sextet(src, g * 4 + c) == ByteOr0(src, g * 3) % 4 * 16 + ByteOr0(src, g * 3 + 1) / 16
    ensures c == 2 ==> Sextet(src, g * 4 + c) == ByteOr0(src, g * 3 + 1) % 16 * 4 + ByteOr0(src, g * 3 + 2) / 64
    ensures c == 3 ==> Sextet(src, g * 4 + c) == ByteOr0(src, g * 3 + 2) % 64
  {
    DivMod(g * 4 + c, 4, g, c);
  }

  // ---------------------------------------------------------------- round trip

  lemma LetterBack(s: seq<byte>, j: nat)
    requires j < Base64Chars(|s|)
    ensures j < |Encode(s)| && Encode(s)[j] != PAD && Value(Encode(s)[j]) == Sextet(s, j)
    ensures At(Encode(s), j) == Sextet(s, j)
  {
    ValueInvertsLetter(Sextet(s, j));
    assert Encode(s)[j] == Letters(s, Base64Chars(|s|))[j];
  }

  lemma PadBack(s: seq<byte>, j: nat)
    requires Base64Chars(|s|) <= j < |Encode(s)|
    ensures Encode(s)[j] == PAD && At(Encode(s), j) == 0
  {
    assert Encode(s)[j] == Padding(|s|)[j - Base64Chars(|s|)];
  }

  /** Neighbouring sextets put a byte together. */
  lemma ThreeBytes(s: seq<byte>, g: nat, c: nat)
    requires c <= 2
    ensures c == 0 ==> Sextet(s, g * 4) * 4 + Sextet(s, g * 4 + 1) / 16 == ByteOr0(s, g * 3)
    ensures c == 1 ==> Sextet(s, g * 4 + 1) % 16 * 16 + Sextet(s, g * 4 + 2) / 4 == ByteOr0(s, g * 3 + 1)
    ensures c == 2 ==> Sextet(s, g * 4 + 2) % 4 * 64 + Sextet(s, g * 4 + 3) == ByteOr0(s, g * 3 + 2)
  {
    hide ByteOr0, Sextet;
    var x, y, z := ByteOr0(s, g * 3), ByteOr0(s, g * 3 + 1), ByteOr0(s, g * 3 + 2);
    SextetOf(s, g, c);
    SextetOf(s, g, c + 1);
    if c == 0 {
      DivMod(x % 4 * 16 + y / 16, 16, x % 4, y / 16);
    } else if c == 1 {
      DivMod(x % 4 * 16 + y / 16, 16, x % 4, y / 16);
      DivMod(y % 16 * 4 + z / 64, 4, y % 16, z / 64);
    } else {
      DivMod(y % 16 * 4 + z / 64, 4, y % 16, z / 64);
    }
  }

  /** The letter that ends byte `k` gives byte `k` back. */
  lemma ByteBack(s: seq<byte>, k: nat)
    requires k < |s|
    ensures var i := k / 3 * 4 + k % 3 + 1;
            i < Base64Chars(|s|) && i % 4 == k % 3 + 1 && ByteAt(Encode(s), i) == s[k]
  {
    hide Encode, Sextet, At, Letter, Value, Letters;
    var g, c := k / 3, k % 3;
    var i := g * 4 + c + 1;
    assert i % 4 == c + 1 && i / 4 == g && (i - 1) / 4 == g && (i - 1) % 4 == c;
    LetterBack(s, i);
    LetterBack(s, i - 1);
    ThreeBytes(s, g, c);
  }

  /** How many bytes the first `n` characters complete. */
  function Complete(n: nat): nat {
    n * 3 / 4
  }

  lemma CompleteStep(n: nat, size: nat)
    requires n > 0
    ensures Complete(n) == Complete(n - 1) + if (n - 1) % 4 != 0 then 1 else 0
    ensures (n - 1) % 4 != 0 ==> var k := Complete(n - 1); k / 3 * 4 + k % 3 + 1 == n - 1
    ensures n - 1 < Base64Chars(size) && (n - 1) % 4 != 0 ==> Complete(n - 1) < size
    ensures n - 1 >= Base64Chars(size) ==> Complete(n - 1) >= size
  {
  }

  lemma {:induction false} BytesBack(s: seq<byte>, n: nat)
    requires n <= |Encode(s)|
    ensures BytesUpTo(Encode(s), n) == if Complete(n) <= |s| then s[..Complete(n)] else s
  {
    hide Encode, Letter, Value, Letters, ByteAt, At, Sextet, Base64Chars;
    if n > 0 {
      BytesBack(s, n - 1);
      CompleteStep(n, |s|);
      hide Complete;
      if n - 1 >= Base64Chars(|s|) {
        PadBack(s, n - 1);
      } else {
        LetterBack(s, n - 1);
        if (n - 1) % 4 != 0 { ByteBack(s, Complete(n - 1)); }
      }
    }
  }

  lemma EncodeReadable(s: seq<byte>)
    ensures Readable(Encode(s), |Encode(s)|)
  {
    hide Encode, Letter, Value, Letters, Sextet;
    var t := Encode(s);
    forall i | 0 <= i < |t| ensures t[i] == PAD || 0 <= Value(t[i]) {
      if i < Base64Chars(|s|) { LetterBack(s, i); } else { PadBack(s, i); }
    }
  }

  lemma WholeGroups(s: seq<byte>)
    ensures |Encode(s)| % 4 == 0 && Complete(|Encode(s)|) >= |s|
  {
    hide Encode;
  }

  /** Decoding what was encoded gives the bytes back, for every length. */
  lemma DecodeInvertsEncode(s: seq<byte>)
    ensures Decode(Encode(s)) == Data(s)
  {
    hide Encode, Readable, BytesUpTo, Complete, At;
    EncodeReadable(s);
    BytesBack(s, |Encode(s)|);
    WholeGroups(s);
    assert s[..|s|] == s;
  }

  /** Nothing in an encoding is mistaken for a control character. */
  lemma EncodeIsPlain(s: seq<byte>, j: nat)
    requires j < |Encode(s)|
    ensures '+' <= Encode(s)[j] <= 'z'
  {
    if j < Base64Chars(|s|) { LetterBack(s, j); } else { PadBack(s, j); }
  }

  /** The size test before encoding (osc/OscSession.cpp:328-333) leaves room for the
      padding as well. */
  lemma EncodingFits(s: seq<byte>, size: nat)
    requires Base64Chars(|s|) < size && size % 4 == 0
    ensures |Encode(s)| <= size
  {
    hide Letters, Padding;
    var n, g := |s|, (|s| + 2) / 3;
    assert 4 * n + 2 >= 3 * (4 * g - 2);
    assert Base64Chars(n) >= 4 * g - 2;
  }

  // ---------------------------------------------------------------- the loops of base64.c

  function Pow2(n: nat): (p: nat)
    requires n <= 12
    ensures p > 0
  {
    [1, 2, 4, 8, 16, 32, 64, 128, 256, 512, 1024, 2048, 4096][n]
  }

  /** `(ac >> bits) & 0x3f`. */
  function Take6(ac: nat, bits: nat): (v: nat)
    requires bits <= 12
    ensures v < 64
  {
    ac / Pow2(bits) % 64
  }

  /** `(ac << 8) | b` in 32 bits. */
  function Shift8(ac: nat, b: byte): (r: nat) {
    (ac * 256 + b) % 0x1_0000_0000
  }

  lemma Wrapped(ac: nat, b: byte, prev: byte) returns (y: int)
    requires ac % 256 == prev
    ensures Shift8(ac, b) == y * 65536 + prev * 256 + b && Shift8(ac, b) % 256 == b
  {
    var x, h := ac * 256 + b, ac / 256;
    y := h - x / 0x1_0000_0000 * 65536;
    DivMod(Shift8(ac, b), 256, y * 256 + prev, b);
  }

  /** What the accumulator yields from a byte `b` after a byte that it holds in its low
      bits: the rest of that byte on top of `b`. */
  lemma TakeRest(ac: nat, b: byte, prev: byte, bits: nat)
    requires ac % 256 == prev && (bits == 0 || bits == 2)
    ensures Shift8(ac, b) % 256 == b
    ensures bits == 0 ==> Take6(Shift8(ac, b), bits) == b % 64
    ensures bits == 2 ==> Take6(Shift8(ac, b), bits) == b / 4
  {
    var y := Wrapped(ac, b, prev);
    var r := Shift8(ac, b);
    hide Shift8;
    if bits == 0 {
      DivMod(r, 64, y * 1024 + prev * 4 + b / 64, b % 64);
    } else {
      DivMod(r, 4, y * 16384 + prev * 64 + b / 4, b % 4);
      DivMod(r / 4, 64, y * 256 + prev, b / 4);
    }
  }

  lemma TakeAcross(ac: nat, b: byte, prev: byte, bits: nat)
    requires ac % 256 == prev && (bits == 4 || bits == 6)
    ensures Shift8(ac, b) % 256 == b
    ensures bits == 4 ==> Take6(Shift8(ac, b), bits) == prev % 4 * 16 + b / 16
    ensures bits == 6 ==> Take6(Shift8(ac, b), bits) == prev % 16 * 4 + b / 64
  {
    var y := Wrapped(ac, b, prev);
    var r := Shift8(ac, b);
    hide Shift8;
    if bits == 4 {
      DivMod(r, 16, y * 4096 + prev * 16 + b / 16, b % 16);
      DivMod(r / 16, 64, y * 64 + prev / 4, prev % 4 * 16 + b / 16);
    } else {
      DivMod(r, 64, y * 1024 + prev * 4 + b / 64, b % 64);
      DivMod(r / 64, 64, y * 16 + prev / 16, prev % 16 * 4 + b / 64);
    }
  }

  /** The letters complete after `i` bytes, and the bits still pending. */
  function Done(i: nat): nat { i * 4 / 3 }

  lemma NextLetters(src: seq<byte>, i: nat, ac: nat)
    requires i < |src| && (i > 0 ==> ac % 256 == src[i - 1]) && (i == 0 ==> ac == 0)
    ensures Shift8(ac, src[i]) % 256 == src[i]
    ensures Take6(Shift8(ac, src[i]), i % 3 * 2 + 2) == Sextet(src, Done(i))
    ensures i % 3 == 2 ==> Take6(Shift8(ac, src[i]), 0) == Sextet(src, Done(i) + 1)
    ensures Done(i + 1) == Done(i) + if i % 3 == 2 then 2 else 1
  {
    hide Shift8, Take6, Sextet;
    var g, c := i / 3, i % 3;
    var prev := if i == 0 then 0 else src[i - 1];
    assert Done(i) == g * 4 + c;
    SextetOf(src, g, c);
    if c == 0 {
      TakeRest(ac, src[i], prev, 2);
    } else if c == 1 {
      TakeAcross(ac, src[i], prev, 4);
    } else {
      TakeAcross(ac, src[i], prev, 6);
      TakeRest(ac, src[i], prev, 0);
      SextetOf(src, g, 3);
    }
  }

  /** The bits left at the end, filled up with zeros. */
  lemma LastLetter(src: seq<byte>, ac: nat)
    requires |src| % 3 != 0 && ac % 256 == src[|src| - 1]
    ensures Base64Chars(|src|) == Done(|src|) + 1
    ensures ac * Pow2(6 - |src| % 3 * 2) % 64 == Sextet(src, Done(|src|))
  {
    hide Sextet;
    var n, b, h := |src|, src[|src| - 1], ac / 256;
    var g := n / 3;
    assert Done(n) == g * 4 + n % 3;
    SextetOf(src, g, n % 3);
    if n % 3 == 1 {
      DivMod(ac * 16, 64, h * 64 + b / 4, b % 4 * 16);
    } else {
      DivMod(ac * 4, 64, h * 16 + b / 16, b % 16 * 4);
    }
  }

  /** `*cp++ = base64_table[v]`. */
  method PutLetter(ghost src: seq<byte>, dst: array<char>, cp: nat, v: nat) returns (next: nat)
    requires cp < dst.Length && v < 64 && v == Sextet(src, cp) && dst[..cp] == Letters(src, cp)
    modifies dst
    ensures next == cp + 1 && dst[..next] == Letters(src, next) && dst[next..] == old(dst[next..])
  {
    TableLetter(v);
    hide Table, Letter, Sextet;
    dst[cp] := Table()[v];
    next := cp + 1;
    assert dst[..next] == dst[..cp] + [dst[cp]];
    assert Letters(src, next) == Letters(src, cp) + [Letter(v)];
  }

  /** The do-while loop: the letters that byte `i` completes. */
  method PutLetters(src: seq<byte>, dst: array<char>, i: nat, ac: nat, bits0: int, cp0: nat, ghost before: nat)
    returns (bits: int, cp: nat)
    requires i < |src| && ac == Shift8(before, src[i]) && (if i == 0 then before == 0 else before % 256 == src[i - 1])
    requires bits0 == i % 3 * 2 + 8 && cp0 == Done(i) && Done(|src|) <= dst.Length && dst[..cp0] == Letters(src, cp0)
    modifies dst
    ensures bits == (i + 1) % 3 * 2 && cp == Done(i + 1) && ac % 256 == src[i]
    ensures dst[..cp] == Letters(src, cp) && dst[cp..] == old(dst[cp..])
  {
    hide Letters, Sextet, Shift8, Take6, ByteOr0, Pow2;
    NextLetters(src, i, before);
    bits, cp := bits0, cp0;
    while bits >= 6
      invariant (bits == i % 3 * 2 + 8 && cp == Done(i)) || (bits == i % 3 * 2 + 2 && cp == Done(i) + 1)
             || (i % 3 == 2 && bits == 0 && cp == Done(i) + 2)
      invariant dst[..cp] == Letters(src, cp) && dst[cp..] == old(dst[cp..])
    {
      bits := bits - 6;
      cp := PutLetter(src, dst, cp, Take6(ac, bits));
    }
  }

  /** The tail of the loop's work: the last letter and the padding. */
  method Finish(src: seq<byte>, dst: array<char>, ac: nat, bits0: int, cp0: nat) returns (cp: nat)
    requires bits0 == |src| % 3 * 2 && cp0 == Done(|src|) && |Encode(src)| <= dst.Length
    requires |src| > 0 ==> ac % 256 == src[|src| - 1]
    requires dst[..cp0] == Letters(src, cp0)
    modifies dst
    ensures cp == |Encode(src)| && dst[..cp] == Encode(src) && dst[cp..] == old(dst[cp..])
  {
    hide Letters, Sextet, ByteOr0, Pow2;
    cp := cp0;
    var bits := bits0;
    if bits != 0 {
      LastLetter(src, ac);
      cp := PutLetter(src, dst, cp, ac * Pow2(6 - bits) % 64);
      bits := bits - 6;
    }
    ghost var pads := cp;
    assert pads == Base64Chars(|src|) && -2 * |Padding(|src|)| == bits;
    while bits < 0
      invariant bits <= 0 && 2 * (pads + |Padding(|src|)| - cp) == -bits && pads <= cp
      invariant dst[..pads] == Letters(src, pads) && dst[cp..] == old(dst[cp..])
      invariant forall k :: pads <= k < cp ==> dst[k] == PAD
    {
      dst[cp] := PAD;
      cp := cp + 1;
      bits := bits + 2;
    }
    PaddedIs(dst, pads, cp, src);
  }

  lemma PaddedIs(dst: array<char>, pads: nat, cp: nat, src: seq<byte>)
    requires pads <= cp <= dst.Length && cp - pads == |Padding(|src|)| && dst[..pads] == Letters(src, pads)
    requires pads == Base64Chars(|src|) && forall k :: pads <= k < cp ==> dst[k] == PAD
    ensures cp == |Encode(src)| && dst[..cp] == Encode(src)
  {
    hide Letters;
    assert dst[..cp] == dst[..pads] + dst[pads..cp];
    assert dst[pads..cp] == Padding(|src|);
  }

  /** base64_encode (base64/base64.c:34-58). */
  method Base64Encode(src: seq<byte>, dst: array<char>) returns (len: nat)
    requires |Encode(src)| <= dst.Length
    modifies dst
    ensures len == |Encode(src)| && dst[..len] == Encode(src) && dst[len..] == old(dst[len..])
  {
    hide Sextet, Shift8, Take6, ByteOr0, Letters, Padding;
    var ac: nat := 0;
    var bits: int := 0;
    var cp := 0;
    assert dst[..0] == Letters(src, 0);
    for i := 0 to |src|
      invariant bits == i % 3 * 2 && cp == Done(i)
      invariant if i == 0 then ac == 0 else ac % 256 == src[i - 1]
      invariant dst[..cp] == Letters(src, cp) && dst[cp..] == old(dst[cp..])
    {
      ghost var before := ac;
      ac := Shift8(ac, src[i]);
      bits, cp := PutLetters(src, dst, i, ac, bits + 8, cp, before);
    }
    len := Finish(src, dst, ac, bits, cp);
  }

  /** `(ac << 6) | v` in 32 bits. */
  function Shift6(ac: nat, v: nat): (r: nat) {
    (ac * 64 + v) % 0x1_0000_0000
  }

  lemma Wrapped6(ac: nat, v: nat, prev: nat) returns (y: int)
    requires ac % 64 == prev && v < 64
    ensures Shift6(ac, v) == y * 4096 + prev * 64 + v && Shift6(ac, v) % 64 == v
  {
    y := ac / 64 - (ac * 64 + v) / 0x1_0000_0000 * 0x10_0000;
    DivMod(Shift6(ac, v), 64, y * 64 + prev, v);
  }

  /** The byte that the accumulator holds once a sextet `v` followed the sextet `prev`. */
  lemma TakeByte(ac: nat, v: nat, prev: nat, bits: nat)
    requires ac % 64 == prev && v < 64 && (bits == 0 || bits == 2 || bits == 4)
    ensures bits == 4 ==> Shift6(ac, v) / Pow2(bits) % 256 == prev * 4 + v / 16
    ensures bits == 2 ==> Shift6(ac, v) / Pow2(bits) % 256 == prev % 16 * 16 + v / 4
    ensures bits == 0 ==> Shift6(ac, v) / Pow2(bits) % 256 == prev % 4 * 64 + v
  {
    var y := Wrapped6(ac, v, prev);
    var r := Shift6(ac, v);
    hide Shift6;
    if bits == 4 {
      DivMod(r, 16, y * 256 + prev * 4 + v / 16, v % 16);
      DivMod(r / 16, 256, y, prev * 4 + v / 16);
    } else if bits == 2 {
      DivMod(r, 4, y * 1024 + prev * 16 + v / 4, v % 4);
      DivMod(r / 4, 256, y * 4 + prev / 16, prev % 16 * 16 + v / 4);
    } else {
      DivMod(r, 256, y * 16 + prev / 4, prev % 4 * 64 + v);
    }
  }

  /** Bits pending after `i` characters. */
  function Pending(i: nat): (bits: nat)
    ensures bits <= 6
  {
    [0, 6, 4, 2][i % 4]
  }

  lemma PendingStep(i: nat)
    ensures Pending(i) + 6 >= 8 <==> i % 4 != 0
    ensures Pending(i + 1) == Pending(i) + if i % 4 != 0 then -2 else 6
  {
  }

  lemma BytesStep(t: string, i: nat)
    requires i < |t| && t[i] != PAD
    ensures BytesUpTo(t, i + 1) == BytesUpTo(t, i) + if i % 4 != 0 then [ByteAt(t, i)] else []
  {
    hide ByteAt;
  }

  lemma CompletesByte(src: string, i: nat, ac: nat, p: nat)
    requires 0 < i < |src| && i % 4 != 0 && p < 64 && p == At(src, i) && ac % 64 == At(src, i - 1)
    ensures Shift6(ac, p) / Pow2(Pending(i + 1)) % 256 == ByteAt(src, i)
  {
    hide ByteAt, Shift6, Pow2, At;
    TakeByte(ac, p, ac % 64, Pending(i + 1));
    ByteAtIs(src, i);
  }

  /** One letter into the accumulator, and the byte it completes into `dst`. */
  method TakeLetter(src: string, dst: array<byte>, i: nat, p: nat, before: nat, bits0: int, bp0: nat)
    returns (ac: nat, bits: int, bp: nat)
    requires i < |src| && p < 64 && p == At(src, i) && src[i] != PAD && |src| * 3 / 4 <= dst.Length
    requires bits0 == Pending(i) && if i == 0 then before == 0 else before % 64 == At(src, i - 1)
    requires bp0 == |BytesUpTo(src, i)| && dst[..bp0] == BytesUpTo(src, i)
    modifies dst
    ensures bits == Pending(i + 1) && ac % 64 == p
    ensures bp == |BytesUpTo(src, i + 1)| && dst[..bp] == BytesUpTo(src, i + 1)
  {
    hide Value, ByteAt, Shift6, Pow2, At;
    var _ := Wrapped6(before, p, before % 64);
    BytesStep(src, i);
    PendingStep(i);
    hide BytesUpTo, Pending;
    assert |BytesUpTo(src, i + 1)| <= |src| * 3 / 4;
    ac, bits, bp := Shift6(before, p), bits0 + 6, bp0;
    if bits >= 8 {
      bits := bits - 8;
      CompletesByte(src, i, before, p);
      dst[bp] := ac / Pow2(bits) % 256;
      bp := bp + 1;
    }
  }

  /** base64_decode (base64/base64.c:75-104), exactly: -1 for a character outside the
      alphabet or for bits left over, else the bytes. */
  method Base64Decode(src: string, dst: array<byte>) returns (len: int)
    requires |src| * 3 / 4 <= dst.Length
    modifies dst
    ensures Decode(src) == Invalid ==> len == -1
    ensures Decode(src).Data? ==> len == |Decode(src).bytes| && dst[..len] == Decode(src).bytes
  {
    hide Table, StrChr, Value, ByteAt, Shift6, Letter, Pow2, At;
    var ac: nat := 0;
    var bits: int := 0;
    var bp := 0;
    for i := 0 to |src|
      invariant Readable(src, i) && bits == Pending(i)
      invariant if i == 0 then ac == 0 else ac % 64 == At(src, i - 1)
      invariant bp == |BytesUpTo(src, i)| && dst[..bp] == BytesUpTo(src, i)
    {
      var p := StrChr(Table(), src[i]);
      if src[i] == PAD {
        PadValue(src, i);
        var _ := Wrapped6(ac, 0, ac % 64);
        ac := Shift6(ac, 0);
        bits := bits + 6;
        if bits >= 8 { bits := bits - 8; }
        continue;
      }
      if src[i] == '\0' { ZeroIsNoLetter(); return -1; }
      StrChrIsValue(Table(), src[i]);
      if p == -1 { return -1; }
      PadValue(src, i);
      ac, bits, bp := TakeLetter(src, dst, i, p, ac, bits, bp);
    }
    LeftoverIs(src, ac);
    if ac % Pow2(bits) != 0 { return -1; }
    return bp;
  }

  lemma ZeroIsNoLetter()
    ensures Value('\0') == -1
  {
  }

  lemma PadValue(t: string, i: nat)
    requires i < |t|
    ensures t[i] == PAD ==> At(t, i) == 0
    ensures t[i] != PAD && Value(t[i]) >= 0 ==> At(t, i) == Value(t[i])
  {
    hide Value;
  }

  lemma ByteAtIs(t: string, i: nat)
    requires 0 < i < |t|
    ensures i % 4 == 1 ==> ByteAt(t, i) == At(t, i - 1) * 4 + At(t, i) / 16
    ensures i % 4 == 2 ==> ByteAt(t, i) == At(t, i - 1) % 16 * 16 + At(t, i) / 4
    ensures i % 4 == 3 ==> ByteAt(t, i) == At(t, i - 1) % 4 * 64 + At(t, i)
  {
    hide At;
  }

  lemma LeftoverIs(t: string, ac: nat)
    requires if |t| == 0 then ac == 0 else ac % 64 == At(t, |t| - 1)
    ensures Leftover(t, |t|) == ac % Pow2(Pending(|t|))
  {
    hide At;
    if |t| > 0 {
      var a, h := ac % 64, ac / 64;
      DivMod(ac, 16, h * 4 + a / 16, a % 16);
      DivMod(ac, 4, h * 16 + a / 4, a % 4);
    }
  }
}
