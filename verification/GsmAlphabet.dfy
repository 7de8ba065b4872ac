/** The GSM alphabet of gsm7.c and the conversions utf8ToGsm7 and gsm7ToUtf8 of converter.cpp. */
module GsmAlphabet {
  import opened Bytes
  import Utf8

  const ESCAPE: byte := 0x1B

  /** The codes that stand for the character of the same number. */
  predicate SameCode(c: int) {
    || c == 0x0A || c == 0x0D
    || 0x20 <= c <= 0x23 || 0x25 <= c <= 0x3F
    || 0x41 <= c <= 0x5A || 0x61 <= c <= 0x7A
  }

  /** gsmToUnicode, for codes below 0x80. */
  function Plain(c: byte): nat {
    if SameCode(c) then c
    else
      match c
      case 0x00 => 0x0040
      case 0x01 => 0x00A3
      case 0x02 => 0x0024
      case 0x03 => 0x00A5
      case 0x04 => 0x00E8
      case 0x05 => 0x00E9
      case 0x06 => 0x00F9
      case 0x07 => 0x00EC
      case 0x08 => 0x00F2
      case 0x09 => 0x00E7
      case 0x0B => 0x00D8
      case 0x0C => 0x00F8
      case 0x0E => 0x00C5
      case 0x0F => 0x00E5
      case 0x10 => 0x0394
      case 0x11 => 0x005F
      case 0x12 => 0x03A6
      case 0x13 => 0x0393
      case 0x14 => 0x039B
      case 0x15 => 0x03A9
      case 0x16 => 0x03A0
      case 0x17 => 0x03A8
      case 0x18 => 0x03A3
      case 0x19 => 0x0398
      case 0x1A => 0x039E
      case 0x1B => 0x00A0
      case 0x1C => 0x00C6
      case 0x1D => 0x00E6
      case 0x1E => 0x00DF
      case 0x1F => 0x00C9
      case 0x24 => 0x00A4
      case 0x40 => 0x00A1
      case 0x5B => 0x00C4
      case 0x5C => 0x00D6
      case 0x5D => 0x00D1
      case 0x5E => 0x00DC
      case 0x5F => 0x00A7
      case 0x60 => 0x00BF
      case 0x7B => 0x00E4
      case 0x7C => 0x00F6
      case 0x7D => 0x00F1
      case 0x7E => 0x00FC
      case 0x7F => 0x00E0
      case _ => 0
  }

  /** gsmEscapes: the character behind an escape, 0 when there is none. */
  function Escaped(c: byte): nat {
    match c
    case 0x0A => 0x000C
    case 0x14 => 0x005E
    case 0x28 => 0x007B
    case 0x29 => 0x007D
    case 0x2F => 0x005C
    case 0x3C => 0x005B
    case 0x3D => 0x007E
    case 0x3E => 0x005D
    case 0x40 => 0x007C
    case 0x65 => 0x20AC
    case _ => 0
  }

  datatype Wide = Wide(wc: nat, len: nat) | IllegalSequence | TooFew

  /** gsm7_mbtowc on the n octets s. */
  function MbToWc(s: seq<byte>): (r: Wide)
    requires s != []
    ensures r.Wide? ==> 1 <= r.len <= |s|
  {
    if s[0] > 0x7F then IllegalSequence
    else if s[0] == ESCAPE then
      if |s| < 2 then TooFew
      else if Escaped(s[1]) == 0 then IllegalSequence
      else Wide(Escaped(s[1]), 2)
    else Wide(Plain(s[0]), 1)
  }

  datatype Narrow = Narrow(r: seq<byte>) | IllegalUnicode | TooSmall

  /** gsm7_wctomb into room for n octets: only the low 16 bits of the character count. */
  function WcToMb(wc: nat, n: nat): Narrow {
    var s1, s2 := (wc / 0x100) % 0x100, wc % 0x100;
    if s1 == 0x00 then
      if SameCode(s2) then Narrow([s2]) else Latin(s2, n)
    else if s1 == 0x20 then
      if s2 == 0xAC then Extended(0x65, n) else IllegalUnicode
    else if s1 == 0x03 then Greek(s2)
    else IllegalUnicode
  }

  function Extended(c: byte, n: nat): Narrow {
    if n >= 2 then Narrow([ESCAPE, c]) else TooSmall
  }

  function Latin(s2: nat, n: nat): Narrow {
    match s2
    case 0x24 => Narrow([0x02])
    case 0x40 => Narrow([0x00])
    case 0x5B => Extended(0x3C, n)
    case 0x5C => Extended(0x2F, n)
    case 0x5D => Extended(0x3E, n)
    case 0x5E => Extended(0x14, n)
    case 0x5F => Narrow([0x11])
    case 0x7B => Extended(0x28, n)
    case 0x7C => Extended(0x40, n)
    case 0x7D => Extended(0x29, n)
    case 0x7E => Extended(0x3D, n)
    case 0xA3 => Narrow([0x01])
    case 0xA4 => Narrow([0x24])
    case 0xA5 => Narrow([0x03])
    case 0xA7 => Narrow([0x5F])
    case 0xB0 => Narrow([0x24])
    case 0xBF => Narrow([0x60])
    case 0xC5 => Narrow([0x0E])
    case 0xC6 => Narrow([0x1C])
    case 0xC7 => Narrow([0x09])
    case 0xC9 => Narrow([0x1F])
    case 0xC4 => Narrow([0x5B])
    case 0xD1 => Narrow([0x5D])
    case 0xD6 => Narrow([0x5C])
    case 0xD8 => Narrow([0x0B])
    case 0xDC => Narrow([0x5E])
    case 0xDF => Narrow([0x1E])
    case 0xE0 => Narrow([0x7F])
    case 0xE4 => Narrow([0x7B])
    case 0xE5 => Narrow([0x0F])
    case 0xE6 => Narrow([0x1D])
    case 0xE7 => Narrow([0x09])
    case 0xE8 => Narrow([0x04])
    case 0xE9 => Narrow([0x05])
    case 0xEC => Narrow([0x07])
    case 0xF1 => Narrow([0x7D])
    case 0xF2 => Narrow([0x08])
    case 0xF6 => Narrow([0x7C])
    case 0xF8 => Narrow([0x0C])
    case 0xF9 => Narrow([0x06])
    case 0xFC => Narrow([0x7E])
    case 0xC0 => Narrow([0x41])
    case 0xC1 => Narrow([0x41])
    case 0xC2 => Narrow([0x41])
    case 0xC3 => Narrow([0x41])
    case 0xC8 => Narrow([0x45])
    case 0xCA => Narrow([0x45])
    case 0xCB => Narrow([0x45])
    case 0xCC => Narrow([0x49])
    case 0xCD => Narrow([0x49])
    case 0xCE => Narrow([0x49])
    case 0xCF => Narrow([0x49])
    case 0xD2 => Narrow([0x4F])
    case 0xD3 => Narrow([0x4F])
    case 0xD4 => Narrow([0x4F])
    case 0xD5 => Narrow([0x4F])
    case 0xD9 => Narrow([0x55])
    case 0xDA => Narrow([0x55])
    case 0xDB => Narrow([0x55])
    case 0xDD => Narrow([0x59])
    case 0xE1 => Narrow([0x61])
    case 0xE2 => Narrow([0x61])
    case 0xE3 => Narrow([0x61])
    case 0xEA => Narrow([0x65])
    case 0xEB => Narrow([0x65])
    case 0xED => Narrow([0x69])
    case 0xEE => Narrow([0x69])
    case 0xEF => Narrow([0x69])
    case 0xF3 => Narrow([0x6F])
    case 0xF4 => Narrow([0x6F])
    case 0xF5 => Narrow([0x6F])
    case 0xFA => Narrow([0x75])
    case 0xFB => Narrow([0x75])
    case 0xFD => Narrow([0x79])
    case 0xFF => Narrow([0x79])
    case _ => IllegalUnicode
  }

  function Greek(s2: nat): Narrow {
    match s2
    case 0x94 => Narrow([0x10])
    case 0xA6 => Narrow([0x12])
    case 0x93 => Narrow([0x13])
    case 0x9B => Narrow([0x14])
    case 0xA9 => Narrow([0x15])
    case 0xA0 => Narrow([0x16])
    case 0xA8 => Narrow([0x17])
    case 0xA3 => Narrow([0x18])
    case 0x98 => Narrow([0x19])
    case 0x9E => Narrow([0x1A])
    case 0x91 => Narrow([0x41])
    case 0x92 => Narrow([0x42])
    case 0x95 => Narrow([0x45])
    case 0x97 => Narrow([0x48])
    case 0x99 => Narrow([0x49])
    case 0x9A => Narrow([0x4B])
    case 0x9C => Narrow([0x4D])
    case 0x9D => Narrow([0x4E])
    case 0x9F => Narrow([0x4F])
    case 0xA1 => Narrow([0x50])
    case 0xA4 => Narrow([0x54])
    case 0xA5 => Narrow([0x55])
    case 0xA7 => Narrow([0x58])
    case 0x96 => Narrow([0x5A])
    case _ => IllegalUnicode
  }

  // Whole texts

  /** What utf8ToGsm7 writes for a wide character. */
  function CharCode(wc: nat): seq<byte> {
    match WcToMb(wc, 2)
    case Narrow(r) => r
    case _ => [Utf8.QUESTION_MARK]
  }

  function GsmEncode(text: seq<nat>): seq<byte> {
    if text == [] then [] else CharCode(text[0]) + GsmEncode(text[1..])
  }

  function GsmDecode(src: seq<byte>): seq<nat> {
    if src == [] then []
    else
      match MbToWc(src)
      case Wide(wc, len) => [wc % 0x1_0000] + GsmDecode(src[len..])
      case _ => [Utf8.QUESTION_MARK] + GsmDecode(src[1..])
  }

  function ToGsm(src: seq<byte>): seq<byte> {
    GsmEncode(Utf8.Decode(src))
  }

  function FromGsm(src: seq<byte>): seq<byte> {
    Utf8.EncodeText(GsmDecode(src))
  }

  /** One turn of the loop of utf8ToGsm7: the octets inserted for a wide character. */
  method NextCode(wstr: seq<nat>, i: nat) returns (code: seq<byte>)
    requires i < |wstr|
    ensures GsmEncode(wstr[i..]) == code + GsmEncode(wstr[i + 1..])
  {
    var res := WcToMb(wstr[i], 2);
    code := if res.Narrow? then res.r else [Utf8.QUESTION_MARK];
    assert wstr[i..][1..] == wstr[i + 1..];
  }

  method Utf8ToGsm7(src: seq<byte>) returns (gsm7Text: seq<byte>)
    ensures gsm7Text == ToGsm(src)
  {
    gsm7Text := [];
    var wstr := Utf8.Utf8ToWStr(src);
    var i := 0;
    while i < |wstr|
      invariant 0 <= i <= |wstr|
      invariant GsmEncode(wstr) == gsm7Text + GsmEncode(wstr[i..])
    {
      var code := NextCode(wstr, i);
      assert gsm7Text + (code + GsmEncode(wstr[i + 1..])) == gsm7Text + code + GsmEncode(wstr[i + 1..]);
      gsm7Text := gsm7Text + code;
      i := i + 1;
    }
    assert wstr[i..] == [] && gsm7Text + [] == gsm7Text;
  }

  /** One turn of the loop of gsm7ToUtf8: the wide character inserted and the octets passed over. */
  method NextWide(src: seq<byte>, i: nat) returns (w: nat, step: nat)
    requires i < |src|
    ensures 1 <= step <= |src| - i
    ensures GsmDecode(src[i..]) == [w] + GsmDecode(src[i + step..])
  {
    var res := MbToWc(src[i..]);
    step := if res.Wide? then res.len else 1;
    w := if res.Wide? then res.wc % 0x1_0000 else Utf8.QUESTION_MARK;
    assert src[i..][step..] == src[i + step..];
  }

  method Gsm7ToUtf8(src: seq<byte>) returns (text: seq<byte>)
    ensures text == FromGsm(src)
  {
    var wstrText: seq<nat> := [];
    var i := 0;
    while i < |src|
      invariant 0 <= i <= |src|
      invariant GsmDecode(src) == wstrText + GsmDecode(src[i..])
    {
      var w, step := NextWide(src, i);
      assert wstrText + ([w] + GsmDecode(src[i + step..])) == wstrText + [w] + GsmDecode(src[i + step..]);
      wstrText := wstrText + [w];
      i := i + step;
    }
    assert src[i..] == [] && wstrText + [] == wstrText;
    text := Utf8.WStrToUtf8(wstrText);
  }

  /** A code whose character is written as that same code: not inverted !, not form feed. */
  predicate IsCode(g: seq<byte>) {
    || (|g| == 1 && g[0] <= 0x7F && g[0] != ESCAPE && g[0] != 0x40)
    || (|g| == 2 && g[0] == ESCAPE && Escaped(g[1]) != 0 && g[1] != 0x0A)
  }

  lemma CharCodeIsCode(wc: nat)
    ensures IsCode(CharCode(wc))
  {
    LatinIsCode(wc % 0x100);
    GreekIsCode(wc % 0x100);
  }

  lemma LatinIsCode(s2: nat)
    ensures Latin(s2, 2).Narrow? ==> IsCode(Latin(s2, 2).r)
  {
  }

  lemma GreekIsCode(s2: nat)
    ensures Greek(s2).Narrow? ==> IsCode(Greek(s2).r)
  {
  }

  lemma LatinPage(wc: nat)
    requires wc < 0x100
    ensures WcToMb(wc, 2) == if SameCode(wc) then Narrow([wc]) else Latin(wc, 2)
  {
    assert wc / 0x100 == 0 && wc % 0x100 == wc;
  }

  lemma GreekPage(wc: nat)
    requires 0x300 <= wc < 0x400
    ensures WcToMb(wc, 2) == Greek(wc - 0x300)
  {
    assert wc / 0x100 == 3 && wc % 0x100 == wc - 0x300;
  }

  lemma CodeRoundTrip(g: seq<byte>)
    requires IsCode(g)
    ensures MbToWc(g).Wide? && MbToWc(g).len == |g| && MbToWc(g).wc < 0x1_0000
    ensures CharCode(MbToWc(g).wc) == g
  {
    if |g| == 1 {
      PlainRoundTrip(g[0]);
    } else {
      EscapedRoundTrip(g[1]);
    }
  }

  lemma PlainRoundTrip(c: byte)
    requires c <= 0x7F && c != ESCAPE && c != 0x40
    ensures Plain(c) < 0x1_0000 && CharCode(Plain(c)) == [c]
  {
    if !SameCode(c) {
      PlainRange(c);
      if Plain(c) < 0x100 {
        LatinInverse(c);
        LatinPage(Plain(c));
      } else {
        GreekInverse(c);
        GreekPage(Plain(c));
      }
    }
  }

  lemma PlainRange(c: byte)
    requires c <= 0x7F && !SameCode(c)
    ensures Plain(c) < 0x100 || 0x300 <= Plain(c) < 0x400
  {
  }

  lemma LatinInverse(c: byte)
    requires c <= 0x7F && c != ESCAPE && c != 0x40 && !SameCode(c) && Plain(c) < 0x100
    ensures !SameCode(Plain(c)) && Latin(Plain(c), 2) == Narrow([c])
  {
  }

  lemma GreekInverse(c: byte)
    requires c <= 0x7F && !SameCode(c) && 0x300 <= Plain(c) < 0x400
    ensures Greek(Plain(c) - 0x300) == Narrow([c])
  {
  }

  lemma EscapedLatin(c: byte)
    requires Escaped(c) != 0 && c != 0x0A && c != 0x65
    ensures 0x40 < Escaped(c) < 0x80 && Latin(Escaped(c), 2) == Extended(c, 2) && !SameCode(Escaped(c))
  {
  }

  lemma EscapedRoundTrip(c: byte)
    requires Escaped(c) != 0 && c != 0x0A
    ensures Escaped(c) < 0x1_0000 && CharCode(Escaped(c)) == [ESCAPE, c]
  {
    var wc := Escaped(c);
    if c == 0x65 {
      assert wc == 0x20AC;
    } else {
      EscapedLatin(c);
      assert (wc / 0x100) % 0x100 == 0 && wc % 0x100 == wc;
    }
  }

  /** A well-formed GSM text without plain 0x40 and without the pair 1B 0A. */
  predicate Canonical(g: seq<byte>) {
    g == [] ||
    var n := if g[0] == ESCAPE then 2 else 1;
    n <= |g| && IsCode(g[..n]) && Canonical(g[n..])
  }

  lemma {:induction false} EncodedIsCanonical(text: seq<nat>)
    ensures Canonical(GsmEncode(text))
  {
    if text != [] {
      var c, g := CharCode(text[0]), GsmEncode(text);
      CharCodeIsCode(text[0]);
      EncodedIsCanonical(text[1..]);
      assert g[..|c|] == c && g[|c|..] == GsmEncode(text[1..]);
    }
  }

  lemma DecodeCons(g: seq<byte>, wc: nat, n: nat)
    requires g != [] && MbToWc(g) == Wide(wc, n) && wc < 0x1_0000
    ensures GsmDecode(g) == [wc] + GsmDecode(g[n..])
  {
  }

  lemma EncodeCons(wc: nat, text: seq<nat>)
    ensures GsmEncode([wc] + text) == CharCode(wc) + GsmEncode(text)
  {
    assert ([wc] + text)[1..] == text;
  }

  /** The code at the start of a text is read whatever follows. */
  lemma FirstCode(g: seq<byte>, n: nat)
    requires 0 < n <= |g| && IsCode(g[..n])
    ensures MbToWc(g) == MbToWc(g[..n])
  {
  }

  lemma CanonicalStep(g: seq<byte>, n: nat)
    requires 0 < n <= |g| && IsCode(g[..n])
    ensures GsmEncode(GsmDecode(g)) == g[..n] + GsmEncode(GsmDecode(g[n..]))
  {
    CodeRoundTrip(g[..n]);
    FirstCode(g, n);
    var wc := MbToWc(g).wc;
    DecodeCons(g, wc, n);
    EncodeCons(wc, GsmDecode(g[n..]));
  }

  lemma {:induction false} CanonicalRoundTrip(g: seq<byte>)
    requires Canonical(g)
    ensures GsmEncode(GsmDecode(g)) == g
    decreases |g|
  {
    if g != [] {
      var n := if g[0] == ESCAPE then 2 else 1;
      CanonicalStep(g, n);
      CanonicalRoundTrip(g[n..]);
      assert g == g[..n] + g[n..];
    }
  }

  lemma {:induction false} DecodedBelow(g: seq<byte>)
    ensures Utf8.CodePoints(GsmDecode(g))
    decreases |g|
  {
    if g != [] {
      DecodedBelow(g[if MbToWc(g).Wide? then MbToWc(g).len else 1..]);
    }
  }

  /** To UTF-8 and back changes nothing exactly for the canonical GSM texts. */
  lemma GsmLossless(g: seq<byte>)
    ensures ToGsm(FromGsm(g)) == g <==> Canonical(g)
  {
    DecodedBelow(g);
    Utf8.DecodeEncoded(GsmDecode(g));
    if Canonical(g) {
      CanonicalRoundTrip(g);
    } else {
      EncodedIsCanonical(GsmDecode(g));
    }
  }

  /** Encoding is a projection: doing it again through UTF-8 changes nothing, whatever the octets. */
  lemma EncodingIsProjection(src: seq<byte>)
    ensures ToGsm(FromGsm(ToGsm(src))) == ToGsm(src)
  {
    EncodedIsCanonical(Utf8.Decode(src));
    GsmLossless(ToGsm(src));
  }

  /** The two characters the alphabet can show but not write: each comes back as a question mark. */
  lemma NotWritable(g: seq<byte>)
    requires g == [0x40] || g == [ESCAPE, 0x0A]
    ensures MbToWc(g).Wide? && ToGsm(FromGsm(g)) == [Utf8.QUESTION_MARK]
  {
    var wc := if g == [0x40] then 0xA1 else 0x0C;
    ShownOnly();
    DecodeCons(g, wc, |g|);
    assert g[|g|..] == [] && [wc] + [] == [wc];
    Utf8.DecodeEncoded([wc]);
    EncodeCons(wc, []);
  }

  lemma ShownOnly()
    ensures Plain(0x40) == 0xA1 && Escaped(0x0A) == 0x0C
    ensures CharCode(0xA1) == [Utf8.QUESTION_MARK] && CharCode(0x0C) == [Utf8.QUESTION_MARK]
  {
    assert Latin(0xA1, 2) == IllegalUnicode && Latin(0x0C, 2) == IllegalUnicode;
  }

  // Octets that are no code

  /** An octet above 7F, an escape that starts no pair, and an escape at the end are each read as one question mark. */
  lemma NoCode(c: byte, rest: seq<byte>)
    requires c > 0x7F
             || (c == 0x1B && (rest == [] || rest[0] !in {0x0A, 0x14, 0x28, 0x29, 0x2F, 0x3C, 0x3D, 0x3E, 0x40, 0x65}))
    ensures GsmDecode([c] + rest) == [0x3F] + GsmDecode(rest)
  {
    var src := [c] + rest;
    assert src[1..] == rest;
    if c == 0x1B && rest != [] { NoPair(rest[0]); }
  }

  lemma NoPair(c: byte)
    requires c !in {0x0A, 0x14, 0x28, 0x29, 0x2F, 0x3C, 0x3D, 0x3E, 0x40, 0x65}
    ensures Escaped(c) == 0
  {
  }

  // Characters that are written as another one

  /** Letters with accents that the alphabet lacks, the degree sign, and the Greek capitals that look like Latin ones. */
  function LookAlike(wc: nat): nat {
    if 0xC0 <= wc <= 0xC3 || wc == 0x391 then 0x41
    else if wc == 0x392 then 0x42
    else if wc == 0xC8 || 0xCA <= wc <= 0xCB || wc == 0x395 then 0x45
    else if wc == 0x397 then 0x48
    else if 0xCC <= wc <= 0xCF || wc == 0x399 then 0x49
    else if wc == 0x39A then 0x4B
    else if wc == 0x39C then 0x4D
    else if wc == 0x39D then 0x4E
    else if 0xD2 <= wc <= 0xD5 || wc == 0x39F then 0x4F
    else if wc == 0x3A1 then 0x50
    else if wc == 0x3A4 then 0x54
    else if 0xD9 <= wc <= 0xDB || wc == 0x3A5 then 0x55
    else if wc == 0x3A7 then 0x58
    else if wc == 0xDD then 0x59
    else if wc == 0x396 then 0x5A
    else if 0xE1 <= wc <= 0xE3 then 0x61
    else if 0xEA <= wc <= 0xEB then 0x65
    else if 0xED <= wc <= 0xEF then 0x69
    else if 0xF3 <= wc <= 0xF5 then 0x6F
    else if 0xFA <= wc <= 0xFB then 0x75
    else if wc == 0xFD || wc == 0xFF then 0x79
    else if wc == 0xC7 then 0xE7
    else if wc == 0xB0 then 0xA4
    else wc
  }

  lemma AsciiFate(s2: nat)
    requires s2 in {0x24, 0x40, 0x5B, 0x5C, 0x5D, 0x5E, 0x5F, 0x7B, 0x7C, 0x7D, 0x7E}
    ensures Latin(s2, 2).Narrow? && MbToWc(Latin(s2, 2).r) == Wide(s2, |Latin(s2, 2).r|)
  {
    match s2
    case 0x24 => assert Latin(0x24, 2) == Narrow([0x02]) && Plain(0x02) == 0x24;
    case 0x40 => assert Latin(0x40, 2) == Narrow([0x00]) && Plain(0x00) == 0x40;
    case 0x5B => assert Latin(0x5B, 2) == Narrow([ESCAPE, 0x3C]) && Escaped(0x3C) == 0x5B;
    case 0x5C => assert Latin(0x5C, 2) == Narrow([ESCAPE, 0x2F]) && Escaped(0x2F) == 0x5C;
    case 0x5D => assert Latin(0x5D, 2) == Narrow([ESCAPE, 0x3E]) && Escaped(0x3E) == 0x5D;
    case 0x5E => assert Latin(0x5E, 2) == Narrow([ESCAPE, 0x14]) && Escaped(0x14) == 0x5E;
    case 0x5F => assert Latin(0x5F, 2) == Narrow([0x11]) && Plain(0x11) == 0x5F;
    case 0x7B => assert Latin(0x7B, 2) == Narrow([ESCAPE, 0x28]) && Escaped(0x28) == 0x7B;
    case 0x7C => assert Latin(0x7C, 2) == Narrow([ESCAPE, 0x40]) && Escaped(0x40) == 0x7C;
    case 0x7D => assert Latin(0x7D, 2) == Narrow([ESCAPE, 0x29]) && Escaped(0x29) == 0x7D;
    case 0x7E => assert Latin(0x7E, 2) == Narrow([ESCAPE, 0x3D]) && Escaped(0x3D) == 0x7E;
  }

  /** The letters that look like another one are written as that letter. */
  lemma CapitalFate(s2: nat)
    requires s2 < 0xE0 && LookAlike(s2) != s2 && s2 != 0xB0 && s2 != 0xC7
    ensures SameCode(LookAlike(s2)) && Latin(s2, 2) == Narrow([LookAlike(s2)])
  {
  }

  lemma SmallFate(s2: nat)
    requires 0xE0 <= s2 < 0x100 && LookAlike(s2) != s2
    ensures SameCode(LookAlike(s2)) && Latin(s2, 2) == Narrow([LookAlike(s2)])
  {
  }

  lemma SignFate(s2: nat)
    requires s2 == 0xB0 || s2 == 0xC7
    ensures MbToWc(Latin(s2, 2).r) == Wide(LookAlike(s2), 1)
  {
  }

  lemma OwnFate(s2: nat)
    requires s2 in {0xA3, 0xA4, 0xA5, 0xA7, 0xBF, 0xC4, 0xC5, 0xC6, 0xC9, 0xD1, 0xD6, 0xD8, 0xDC, 0xDF}
    ensures Latin(s2, 2).Narrow? && MbToWc(Latin(s2, 2).r) == Wide(s2, 1)
  {
    match s2
    case 0xA3 => assert Latin(0xA3, 2) == Narrow([0x01]) && Plain(0x01) == 0xA3;
    case 0xA4 => assert Latin(0xA4, 2) == Narrow([0x24]) && Plain(0x24) == 0xA4;
    case 0xA5 => assert Latin(0xA5, 2) == Narrow([0x03]) && Plain(0x03) == 0xA5;
    case 0xA7 => assert Latin(0xA7, 2) == Narrow([0x5F]) && Plain(0x5F) == 0xA7;
    case 0xBF => assert Latin(0xBF, 2) == Narrow([0x60]) && Plain(0x60) == 0xBF;
    case 0xC4 => assert Latin(0xC4, 2) == Narrow([0x5B]) && Plain(0x5B) == 0xC4;
    case 0xC5 => assert Latin(0xC5, 2) == Narrow([0x0E]) && Plain(0x0E) == 0xC5;
    case 0xC6 => assert Latin(0xC6, 2) == Narrow([0x1C]) && Plain(0x1C) == 0xC6;
    case 0xC9 => assert Latin(0xC9, 2) == Narrow([0x1F]) && Plain(0x1F) == 0xC9;
    case 0xD1 => assert Latin(0xD1, 2) == Narrow([0x5D]) && Plain(0x5D) == 0xD1;
    case 0xD6 => assert Latin(0xD6, 2) == Narrow([0x5C]) && Plain(0x5C) == 0xD6;
    case 0xD8 => assert Latin(0xD8, 2) == Narrow([0x0B]) && Plain(0x0B) == 0xD8;
    case 0xDC => assert Latin(0xDC, 2) == Narrow([0x5E]) && Plain(0x5E) == 0xDC;
    case 0xDF => assert Latin(0xDF, 2) == Narrow([0x1E]) && Plain(0x1E) == 0xDF;
  }

  lemma SecondOwnFate(s2: nat)
    requires s2 in {0xE0, 0xE4, 0xE5, 0xE6, 0xE7, 0xE8, 0xE9, 0xEC, 0xF1, 0xF2, 0xF6, 0xF8, 0xF9, 0xFC}
    ensures Latin(s2, 2).Narrow? && MbToWc(Latin(s2, 2).r) == Wide(s2, 1)
  {
    match s2
    case 0xE0 => assert Latin(0xE0, 2) == Narrow([0x7F]) && Plain(0x7F) == 0xE0;
    case 0xE4 => assert Latin(0xE4, 2) == Narrow([0x7B]) && Plain(0x7B) == 0xE4;
    case 0xE5 => assert Latin(0xE5, 2) == Narrow([0x0F]) && Plain(0x0F) == 0xE5;
    case 0xE6 => assert Latin(0xE6, 2) == Narrow([0x1D]) && Plain(0x1D) == 0xE6;
    case 0xE7 => assert Latin(0xE7, 2) == Narrow([0x09]) && Plain(0x09) == 0xE7;
    case 0xE8 => assert Latin(0xE8, 2) == Narrow([0x04]) && Plain(0x04) == 0xE8;
    case 0xE9 => assert Latin(0xE9, 2) == Narrow([0x05]) && Plain(0x05) == 0xE9;
    case 0xEC => assert Latin(0xEC, 2) == Narrow([0x07]) && Plain(0x07) == 0xEC;
    case 0xF1 => assert Latin(0xF1, 2) == Narrow([0x7D]) && Plain(0x7D) == 0xF1;
    case 0xF2 => assert Latin(0xF2, 2) == Narrow([0x08]) && Plain(0x08) == 0xF2;
    case 0xF6 => assert Latin(0xF6, 2) == Narrow([0x7C]) && Plain(0x7C) == 0xF6;
    case 0xF8 => assert Latin(0xF8, 2) == Narrow([0x0C]) && Plain(0x0C) == 0xF8;
    case 0xF9 => assert Latin(0xF9, 2) == Narrow([0x06]) && Plain(0x06) == 0xF9;
    case 0xFC => assert Latin(0xFC, 2) == Narrow([0x7E]) && Plain(0x7E) == 0xFC;
  }

  lemma NoLatin(s2: nat)
    requires s2 < 0x100 && !SameCode(s2) && LookAlike(s2) == s2
    requires s2 !in {0x24, 0x40, 0x5B, 0x5C, 0x5D, 0x5E, 0x5F, 0x7B, 0x7C, 0x7D, 0x7E}
    requires s2 !in {0xA3, 0xA4, 0xA5, 0xA7, 0xBF, 0xC4, 0xC5, 0xC6, 0xC9, 0xD1, 0xD6, 0xD8, 0xDC, 0xDF}
    requires s2 !in {0xE0, 0xE4, 0xE5, 0xE6, 0xE7, 0xE8, 0xE9, 0xEC, 0xF1, 0xF2, 0xF6, 0xF8, 0xF9, 0xFC}
    ensures Latin(s2, 2) == IllegalUnicode
  {
  }

  lemma LatinFate(s2: nat)
    requires s2 < 0x100 && !SameCode(s2) && Latin(s2, 2).Narrow?
    ensures MbToWc(Latin(s2, 2).r) == Wide(LookAlike(s2), |Latin(s2, 2).r|)
  {
    LookAlikeRange(s2);
    if LookAlike(s2) != s2 {
      if s2 == 0xB0 || s2 == 0xC7 {
        SignFate(s2);
      } else if s2 < 0xE0 {
        CapitalFate(s2);
      } else {
        SmallFate(s2);
      }
    } else if s2 in {0x24, 0x40, 0x5B, 0x5C, 0x5D, 0x5E, 0x5F, 0x7B, 0x7C, 0x7D, 0x7E} {
      AsciiFate(s2);
    } else if s2 in {0xA3, 0xA4, 0xA5, 0xA7, 0xBF, 0xC4, 0xC5, 0xC6, 0xC9, 0xD1, 0xD6, 0xD8, 0xDC, 0xDF} {
      OwnFate(s2);
    } else if s2 in {0xE0, 0xE4, 0xE5, 0xE6, 0xE7, 0xE8, 0xE9, 0xEC, 0xF1, 0xF2, 0xF6, 0xF8, 0xF9, 0xFC} {
      SecondOwnFate(s2);
    } else {
      NoLatin(s2);
    }
  }

  lemma GreekFate(s2: nat)
    requires s2 < 0x100 && Greek(s2).Narrow?
    ensures MbToWc(Greek(s2).r) == Wide(LookAlike(0x300 + s2), |Greek(s2).r|)
  {
  }

  lemma EuroFate()
    ensures MbToWc([ESCAPE, 0x65]) == Wide(0x20AC, 2)
  {
  }

  /** A code that is read as the character. */
  ghost predicate ReadAs(wc: nat) {
    exists g :: IsCode(g) && MbToWc(g).Wide? && MbToWc(g).wc == wc
  }

  lemma LowDigits(wc: nat)
    ensures wc % 0x1_0000 / 0x100 == wc / 0x100 % 0x100 && wc % 0x1_0000 % 0x100 == wc % 0x100
  {
    var high, low := wc / 0x1_0000, wc % 0x1_0000;
    DigitsOf(high, low / 0x100, low % 0x100);
  }

  lemma DigitsOf(a: nat, b: nat, c: nat)
    requires b < 0x100 && c < 0x100
    ensures var n := 0x1_0000 * a + (0x100 * b + c); n / 0x100 == 0x100 * a + b && n % 0x100 == c
    ensures (0x100 * a + b) % 0x100 == b
  {
  }

  /** Only the low 16 bits of a character count. */
  lemma LowBitsCount(wc: nat)
    ensures CharCode(wc) == CharCode(wc % 0x1_0000)
  {
    LowDigits(wc);
  }

  lemma WrittenFate(wc: nat)
    requires wc < 0x1_0000 && WcToMb(wc, 2).Narrow?
    ensures MbToWc(CharCode(wc)).Wide? && MbToWc(CharCode(wc)).wc == LookAlike(wc)
  {
    var s1, s2 := (wc / 0x100) % 0x100, wc % 0x100;
    assert wc == 0x100 * s1 + s2;
    if s1 == 0 {
      if !SameCode(s2) { LatinFate(s2); } else { assert MbToWc([s2 as byte]) == Wide(s2, 1); }
    } else if s1 == 0x20 {
      EuroFate();
    } else {
      GreekFate(s2);
    }
  }

  lemma QuestionMarkRead()
    ensures MbToWc([0x3F]) == Wide(0x3F, 1) && LookAlike(0x3F) == 0x3F && WcToMb(0x3F, 2) == Narrow([0x3F])
  {
  }

  lemma WrittenIsRead(wc: nat)
    requires wc < 0x1_0000 && WcToMb(wc, 2).Narrow?
    ensures MbToWc(CharCode(wc)).Wide? && MbToWc(CharCode(wc)).wc == LookAlike(wc) && ReadAs(LookAlike(wc))
  {
    CharCodeIsCode(wc);
    WrittenFate(wc);
  }

  lemma OnlyItselfAsMark(wc: nat)
    requires wc < 0x1_0000 && WcToMb(wc, 2).Narrow? && CharCode(wc) == [0x3F]
    ensures wc == 0x3F
  {
    WrittenFate(wc);
    QuestionMarkRead();
    LookAlikeRange(wc);
    LookAlikeLetters(wc);
  }

  lemma LookAlikeLetters(wc: nat)
    ensures LookAlike(wc) != wc ==> LookAlike(wc) > 0x3F
  {
  }

  lemma ReadIsWritten(wc: nat, g: seq<byte>)
    requires IsCode(g) && MbToWc(g).Wide? && MbToWc(g).wc == wc
    ensures WcToMb(wc, 2).Narrow?
  {
    CodeRoundTrip(g);
    QuestionMarkRead();
  }

  lemma MarkedIsNotRead(wc: nat)
    requires wc < 0x1_0000 && !WcToMb(wc, 2).Narrow?
    ensures !ReadAs(LookAlike(wc)) && wc != 0x3F
  {
    QuestionMarkRead();
    OnlyLettersChange(wc);
    forall g | IsCode(g) && MbToWc(g).Wide? ensures MbToWc(g).wc != wc {
      ReadIsWritten(MbToWc(g).wc, g);
    }
  }

  /**
   * Every character is written as a code that is read as that character, or as the letter it looks like, or as a
   * question mark; a question mark only when no code is read as the character or as a letter it is written as.
   */
  lemma CharacterFate(wc: nat)
    requires wc < 0x1_0000
    ensures CharCode(wc) != [0x3F] ==> MbToWc(CharCode(wc)).Wide? && MbToWc(CharCode(wc)).wc == LookAlike(wc)
    ensures CharCode(wc) == [0x3F] <==> wc == 0x3F || !ReadAs(LookAlike(wc))
  {
    QuestionMarkRead();
    if WcToMb(wc, 2).Narrow? {
      WrittenIsRead(wc);
      if CharCode(wc) == [0x3F] { OnlyItselfAsMark(wc); }
    } else {
      MarkedIsNotRead(wc);
    }
  }

  lemma LatinLetters(s2: nat)
    requires s2 < 0x100 && LookAlike(s2) != s2
    ensures Latin(s2, 2).Narrow?
  {
  }

  lemma GreekLetters(s2: nat)
    requires s2 < 0x100 && LookAlike(0x300 + s2) != 0x300 + s2
    ensures Greek(s2).Narrow?
  {
  }

  lemma LookAlikeRange(wc: nat)
    ensures LookAlike(wc) != wc ==> 0x80 <= wc < 0x100 || 0x300 <= wc < 0x400
  {
  }

  lemma OnlyLettersChange(wc: nat)
    requires wc < 0x1_0000
    ensures LookAlike(wc) != wc ==> WcToMb(wc, 2).Narrow?
  {
    LookAlikeRange(wc);
    if LookAlike(wc) != wc {
      if wc < 0x100 {
        LatinPage(wc);
        LatinLetters(wc);
      } else {
        GreekPage(wc);
        GreekLetters(wc - 0x300);
      }
    }
  }
}
