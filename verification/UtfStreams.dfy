/** Whole texts in UTF-16 and UTF-32, as win_iconv reads, writes and converts them. */
module UtfStreams {
  import opened Sequences
  import opened Bytes
  import opened Unicode
  import opened WinIconv

  predicate Scalars(us: seq<nat>) {
    forall u | u in us :: IsScalar(u)
  }

  /** The octets of a text, with the mark first when the codec uses one. */
  function EncodeStream(c: Codec, mode: Mode, us: seq<nat>): seq<byte>
    requires Scalars(us)
    decreases |us|
  {
    if us == [] then []
    else CharOctets(c, mode, ToUtf16(us[0])) + EncodeStream(c, AfterMark(c, mode), us[1..])
  }

  /** The characters a codec reads, up to the end or the first fault. */
  function DecodeStream(c: Codec, mode: Mode, input: seq<byte>): (r: (seq<nat>, Ending))
    ensures Scalars(r.0)
    decreases |input|
  {
    if input == [] then ([], Finished)
    else
      match MbToWc(c, mode, input)
      case Wrong(e) => ([], Stopped(e))
      case Read(insize, w, next) =>
        var (us, ending) := DecodeStream(c, next, input[insize..]);
        match w
        case None => (us, ending)
        case Some(ch) =>
          Ucs4RoundTrip(ch);
          ([ToUcs4(ch)] + us, ending)
  }

  function UtfPair(from: Codec, to: Codec): Pair {
    Pair(UtfConv(from), UtfConv(to))
  }

  lemma UtfTurn(c: Codec, d: Codec, from: Mode, to: Mode, input: seq<byte>)
    requires input != []
    ensures OneTurn(UtfPair(c, d), from, to, input)
            == match MbToWc(c, from, input)
               case Wrong(e) => Stop(Stopped(e))
               case Read(insize, None, next) => Go(insize, [], next, to)
               case Read(insize, Some(w), next) => Go(insize, CharOctets(d, to, w), next, AfterMark(d, to))
  {
  }

  /** Converting is decoding and encoding again, for every input. */
  lemma {:induction false} ConvertIsRecode(c: Codec, d: Codec, from: Mode, to: Mode, input: seq<byte>)
    ensures var r := Convert(UtfPair(c, d), from, to, input, None);
            var (us, ending) := DecodeStream(c, from, input);
            r.out == EncodeStream(d, to, us) && r.ending == ending
    decreases |input|
  {
    if input != [] {
      UtfTurn(c, d, from, to, input);
      var t := OneTurn(UtfPair(c, d), from, to, input);
      if t.Go? {
        var rest := input[t.insize..];
        FirstTurn(UtfPair(c, d), from, to, input, None);
        ConvertIsRecode(c, d, t.from, t.to, rest);
        RecodeStep(c, d, from, to, input);
      }
    }
  }

  lemma RecodeStep(c: Codec, d: Codec, from: Mode, to: Mode, input: seq<byte>)
    requires input != [] && MbToWc(c, from, input).Read?
    ensures var read := MbToWc(c, from, input);
            var (more, _) := DecodeStream(c, read.mode, input[read.insize..]);
            EncodeStream(d, to, DecodeStream(c, from, input).0)
            == if read.w.None? then [] + EncodeStream(d, to, more)
               else CharOctets(d, to, read.w.value) + EncodeStream(d, AfterMark(d, to), more)
  {
    var read := MbToWc(c, from, input);
    var us := DecodeStream(c, read.mode, input[read.insize..]).0;
    match read.w
    case None =>
      assert [] + EncodeStream(d, to, us) == EncodeStream(d, to, us);
    case Some(w) =>
      Ucs4RoundTrip(w);
      assert ([ToUcs4(w)] + us)[1..] == us;
  }

  /** A decoder for what an encoder writes: same units, and same byte order unless a mark tells. */
  predicate Compatible(e: Codec, d: Codec) {
    d.wide == e.wide && d.useBom == e.useBom && (e.useBom || d.big == e.big)
  }

  /** The decoder reads in the encoder's byte order and takes nothing for a mark any more. */
  predicate InStep(e: Codec, d: Codec, mode: Mode) {
    d.wide == e.wide && (d.big != mode.swapped) == e.big && (d.useBom ==> mode.bomDone)
  }

  lemma CharReads(e: Codec, d: Codec, mode: Mode, w: Wide, rest: seq<byte>)
    requires InStep(e, d, mode)
    ensures MbToWc(d, mode, UnitOctets(e, w) + rest) == Read(|UnitOctets(e, w)|, Some(w), mode)
  {
    UnitSizes();
    var o := UnitOctets(e, w);
    var n := Units(e);
    assert (o + rest)[..n] == o[..n];
    if e.wide {
      Ucs4RoundTrip(w);
      UnitRoundTrip(n, e.big, ToUcs4(w));
      assert o[..n] == o;
    } else {
      UnitRoundTrip(n, e.big, w[0]);
      assert o[..n] == PutUnit(n, e.big, w[0]);
      if |w| == 2 {
        UnitRoundTrip(n, e.big, w[1]);
        assert (o + rest)[2..4] == PutUnit(n, e.big, w[1]);
        assert w == [w[0], w[1]];
      } else {
        assert w == [w[0]];
      }
    }
  }

  /** A mark of either byte order, read in the other one. */
  lemma SwappedMark(c: Codec, big: bool)
    ensures GetUnit(!big, PutUnit(Units(c), big, BOM)) == SwappedBom(c)
  {
    if c.wide {
      WideMarkPut();
      WideMarkGet();
    } else {
      NarrowMark();
    }
  }

  lemma NarrowMark()
    ensures PutUnit(2, true, BOM) == [0xFE, 0xFF] && PutUnit(2, false, BOM) == [0xFF, 0xFE]
    ensures FromBigEndian([0xFF, 0xFE]) == 0xFFFE && FromLittleEndian([0xFE, 0xFF]) == 0xFFFE
  {
    assert BigEndian(1, 0xFE) == [] + [0xFE];
    assert LittleEndian(1, 0xFE) == [0xFE];
    assert [0xFF, 0xFE][..1] == [0xFF] && [0xFF][..0] == [];
    assert FromBigEndian([0xFF]) == 0xFF;
    assert [0xFE, 0xFF][1..] == [0xFF] && [0xFF][1..] == [];
    assert FromLittleEndian([0xFF]) == 0xFF;
  }

  lemma WideMarkPut()
    ensures PutUnit(4, true, BOM) == [0, 0, 0xFE, 0xFF] && PutUnit(4, false, BOM) == [0xFF, 0xFE, 0, 0]
  {
    assert BigEndian(1, 0) == [] + [0];
    assert BigEndian(2, 0) == [0, 0];
    assert BigEndian(3, 0xFE) == [0, 0, 0xFE];
    assert LittleEndian(1, 0) == [0];
    assert LittleEndian(2, 0) == [0, 0];
    assert LittleEndian(3, 0xFE) == [0xFE, 0, 0];
  }

  lemma WideMarkGet()
    ensures FromBigEndian([0xFF, 0xFE, 0, 0]) == 0xFFFE_0000
    ensures FromLittleEndian([0, 0, 0xFE, 0xFF]) == 0xFFFE_0000
  {
    NarrowMark();
    assert [0xFF, 0xFE, 0, 0][..3] == [0xFF, 0xFE, 0] && [0xFF, 0xFE, 0][..2] == [0xFF, 0xFE];
    assert FromBigEndian([0xFF, 0xFE, 0]) == 0xFFFE00;
    assert [0, 0, 0xFE, 0xFF][1..] == [0, 0xFE, 0xFF] && [0, 0xFE, 0xFF][1..] == [0xFE, 0xFF];
    assert FromLittleEndian([0, 0xFE, 0xFF]) == 0xFFFE00;
  }

  lemma MarkReads(e: Codec, d: Codec, rest: seq<byte>)
    requires Compatible(e, d) && e.useBom
    ensures MbToWc(d, START, Mark(e, START) + rest) == Read(Units(e), None, Mode(true, d.big != e.big))
  {
    UnitSizes();
    var o := Mark(e, START);
    assert (o + rest)[..Units(e)] == o;
    UnitRoundTrip(Units(e), e.big, BOM);
    SwappedMark(e, e.big);
  }

  /** Behind the mark a character is its units only. */
  lemma NoMarkLeft(e: Codec, mode: Mode, w: Wide)
    requires e.useBom ==> mode.bomDone
    ensures CharOctets(e, mode, w) == UnitOctets(e, w) && AfterMark(e, mode) == mode
  {
    assert [] + UnitOctets(e, w) == UnitOctets(e, w);
  }

  lemma {:induction false} CharsRead(e: Codec, d: Codec, mode: Mode, em: Mode, us: seq<nat>)
    requires Scalars(us) && InStep(e, d, mode) && (e.useBom ==> em.bomDone)
    ensures DecodeStream(d, mode, EncodeStream(e, em, us)) == (us, Finished)
  {
    if us != [] {
      assert us[0] in us && forall u | u in us[1..] :: u in us;
      var w := ToUtf16(us[0]);
      var rest := EncodeStream(e, em, us[1..]);
      Utf16RoundTrip(us[0]);
      NoMarkLeft(e, em, w);
      CharReads(e, d, mode, w, rest);
      CharsRead(e, d, mode, em, us[1..]);
      Appended(UnitOctets(e, w), rest);
      FirstAndRest(us);
    }
  }

  /** With a mark to write, a text is the mark and then the text. */
  lemma MarkFirst(e: Codec, us: seq<nat>)
    requires Scalars(us) && us != []
    ensures EncodeStream(e, START, us) == Mark(e, START) + EncodeStream(e, AfterMark(e, START), us)
  {
    assert us[0] in us && forall u | u in us[1..] :: u in us;
    var w, em := ToUtf16(us[0]), AfterMark(e, START);
    NoMarkLeft(e, em, w);
    AppendAssociates(Mark(e, START), UnitOctets(e, w), EncodeStream(e, em, us[1..]));
  }

  /** A text comes back unchanged, also through a decoder of the other byte order when there is a mark. */
  lemma StreamRoundTrip(e: Codec, d: Codec, us: seq<nat>)
    requires Scalars(us) && Compatible(e, d)
    ensures DecodeStream(d, START, EncodeStream(e, START, us)) == (us, Finished)
  {
    if us != [] {
      if e.useBom {
        var em := AfterMark(e, START);
        var rest := EncodeStream(e, em, us);
        MarkFirst(e, us);
        MarkReads(e, d, rest);
        Appended(Mark(e, START), rest);
        CharsRead(e, d, Mode(true, d.big != e.big), em, us);
      } else {
        CharsRead(e, d, START, START, us);
      }
    }
  }

  /** Converting a text gives that text in the other codec. */
  lemma ConvertsText(e: Codec, from: Codec, to: Codec, us: seq<nat>)
    requires Scalars(us) && Compatible(e, from)
    ensures var r := Convert(UtfPair(from, to), START, START, EncodeStream(e, START, us), None);
            r.ending == Finished && r.out == EncodeStream(to, START, us)
  {
    StreamRoundTrip(e, from, us);
    ConvertIsRecode(from, to, START, START, EncodeStream(e, START, us));
  }

  // Text without a mark

  /** The first unit of a text is what a mark reads as, in this byte order or the other. */
  predicate LooksMarked(c: Codec, u: nat) {
    u == 0xFEFF || (!c.wide && u == 0xFFFE)
  }

  lemma UnmarkedFirst(e: Codec, d: Codec, u: nat, rest: seq<byte>)
    requires d == e.(useBom := true) && IsScalar(u)
    requires !LooksMarked(e, u)
    ensures var o := UnitOctets(e, ToUtf16(u));
            MbToWc(d, START, o + rest) == Read(|o|, Some(ToUtf16(u)), Mode(true, false))
  {
    var w, n := ToUtf16(u), Units(e);
    var o := UnitOctets(e, w);
    var done := Mode(true, false);
    CharReads(e, d, done, w, rest);
    UnitSizes();
    Utf16RoundTrip(u);
    assert (o + rest)[..n] == o[..n];
    if e.wide {
      UnitRoundTrip(n, e.big, u);
      assert o[..n] == o;
    } else {
      UnitRoundTrip(n, e.big, w[0]);
      assert o[..n] == PutUnit(n, e.big, w[0]);
    }
  }

  lemma UnmarkedMark(e: Codec, d: Codec, rest: seq<byte>)
    requires d == e.(useBom := true)
    ensures var o := UnitOctets(e, [BOM]); MbToWc(d, START, o + rest) == Read(|o|, None, Mode(true, false))
  {
    UnitSizes();
    var o := UnitOctets(e, [BOM]);
    assert (o + rest)[..Units(e)] == o;
    UnitRoundTrip(Units(e), e.big, BOM);
    SwappedMark(e, e.big);
  }

  /**
   * A decoder that looks for a mark reads a text without one as it is, in its own byte order, unless the text starts
   * with what it takes for a mark; a leading U+FEFF is passed over.
   */
  lemma UnmarkedText(e: Codec, d: Codec, us: seq<nat>)
    requires Scalars(us) && us != [] && !e.useBom && d == e.(useBom := true)
    ensures !LooksMarked(e, us[0]) ==> DecodeStream(d, START, EncodeStream(e, START, us)) == (us, Finished)
    ensures us[0] == 0xFEFF ==> DecodeStream(d, START, EncodeStream(e, START, us)) == (us[1..], Finished)
  {
    assert us[0] in us && forall u | u in us[1..] :: u in us;
    var w := ToUtf16(us[0]);
    var o, rest := UnitOctets(e, w), EncodeStream(e, START, us[1..]);
    NoMarkLeft(e, START, w);
    assert EncodeStream(e, START, us) == o + rest;
    CharsRead(e, d, Mode(true, false), START, us[1..]);
    Appended(o, rest);
    if us[0] == 0xFEFF {
      UnmarkedMark(e, d, rest);
    } else if !LooksMarked(e, us[0]) {
      UnmarkedFirst(e, d, us[0], rest);
      Utf16RoundTrip(us[0]);
      FirstAndRest(us);
    }
  }

  /** So it is converted like a text with the mark. */
  lemma ConvertsUnmarked(e: Codec, from: Codec, to: Codec, us: seq<nat>)
    requires Scalars(us) && us != [] && !e.useBom && from == e.(useBom := true) && !LooksMarked(e, us[0])
    ensures var r := Convert(UtfPair(from, to), START, START, EncodeStream(e, START, us), None);
            r.ending == Finished && r.out == EncodeStream(to, START, us)
  {
    UnmarkedText(e, from, us);
    ConvertIsRecode(from, to, START, START, EncodeStream(e, START, us));
  }

  // Characters, octet by octet

  lemma UnitOfTwo(big: bool, a: byte, b: byte)
    ensures GetUnit(big, [a, b]) == if big then 256 * a + b else 256 * b + a
    ensures PutUnit(2, big, 256 * a + b) == if big then [a, b] else [b, a]
  {
    assert [a, b][..1] == [a] && [a][..0] == [] && [a, b][1..] == [b] && [b][1..] == [];
    assert FromBigEndian([a]) == a && FromLittleEndian([b]) == b;
    var n := 256 * a + b;
    assert n / 256 == a && n % 256 == b;
    assert BigEndian(1, a) == [] + [a] && LittleEndian(1, a) == [a];
  }

  lemma UnitOfFour(big: bool, a: byte, b: byte, c: byte, d: byte)
    ensures GetUnit(big, [a, b, c, d])
            == if big then 0x100_0000 * a + 0x1_0000 * b + 256 * c + d else 0x100_0000 * d + 0x1_0000 * c + 256 * b + a
  {
    UnitOfTwo(true, a, b);
    UnitOfTwo(false, c, d);
    assert [a, b, c, d][..3] == [a, b, c] && [a, b, c][..2] == [a, b];
    assert [a, b, c, d][1..] == [b, c, d] && [b, c, d][1..] == [c, d];
    assert FromBigEndian([a, b, c]) == 256 * (256 * a + b) + c;
    assert FromLittleEndian([b, c, d]) == b + 256 * (c + 256 * d);
  }

  /** No mark is looked for any more. */
  predicate PastMark(c: Codec, mode: Mode) {
    c.useBom ==> mode.bomDone
  }

  /** The octets of the unit at k, most significant first. */
  function UnitAt(big: bool, input: seq<byte>, k: nat): (byte, byte)
    requires k + 2 <= |input|
  {
    if big then (input[k], input[k + 1]) else (input[k + 1], input[k])
  }

  /**
   * Which character of 16-bit units the octets start with: a cut unit or pair is EINVAL, an unpaired surrogate of either
   * kind EILSEQ.
   */
  lemma NarrowCharacter(c: Codec, mode: Mode, input: seq<byte>)
    requires !c.wide && PastMark(c, mode) && input != []
    ensures MbToWc(c, mode, input)
            == if |input| < 2 then Wrong(EINVAL)
               else
                 var (h, l) := UnitAt(c.big != mode.swapped, input, 0);
                 if 0xDC <= h <= 0xDF then Wrong(EILSEQ)
                 else if 0xD8 <= h <= 0xDB then
                   if |input| < 4 then Wrong(EINVAL)
                   else
                     var (h', l') := UnitAt(c.big != mode.swapped, input, 2);
                     if 0xDC <= h' <= 0xDF then Read(4, Some([256 * h + l, 256 * h' + l']), mode) else Wrong(EILSEQ)
                 else Read(2, Some([256 * h + l]), mode)
  {
    var big := c.big != mode.swapped;
    if |input| >= 2 {
      assert input[..2] == [input[0], input[1]];
      UnitOfTwo(big, input[0], input[1]);
    }
    if |input| >= 4 {
      assert input[2..4] == [input[2], input[3]];
      UnitOfTwo(big, input[2], input[3]);
    }
  }

  /** Which character of 32-bit units: EINVAL for a cut unit, EILSEQ above U+10FFFF and for a surrogate. */
  lemma WideCharacter(c: Codec, mode: Mode, input: seq<byte>)
    requires c.wide && PastMark(c, mode) && input != []
    ensures MbToWc(c, mode, input)
            == if |input| < 4 then Wrong(EINVAL)
               else
                 var big := c.big != mode.swapped;
                 var (a, b) := UnitAt(big, input, if big then 0 else 2);
                 var (h, l) := UnitAt(big, input, if big then 2 else 0);
                 if a != 0 || b > 0x10 || (b == 0 && 0xD8 <= h <= 0xDF) then Wrong(EILSEQ)
                 else Read(4, Some(ToUtf16(0x1_0000 * b + 256 * h + l)), mode)
  {
    if |input| >= 4 {
      assert input[..4] == [input[0], input[1], input[2], input[3]];
      UnitOfFour(c.big != mode.swapped, input[0], input[1], input[2], input[3]);
    }
  }

  /** The octets of a character of 16-bit units: those of its number, or of its two surrogates. */
  lemma NarrowOctets(c: Codec, u: nat)
    requires !c.wide && IsScalar(u)
    ensures var v := u - 0x1_0000;
            UnitOctets(c, ToUtf16(u))
            == if u < 0x1_0000 then (if c.big then [u / 256, u % 256] else [u % 256, u / 256])
               else if c.big then [0xD8 + v / 0x4_0000, v / 0x400 % 256, 0xDC + v / 256 % 4, v % 256]
               else [v / 0x400 % 256, 0xD8 + v / 0x4_0000, v % 256, 0xDC + v / 256 % 4]
  {
    if u < 0x1_0000 {
      UnitOfTwo(c.big, u / 256, u % 256);
    } else {
      var v: nat := u - 0x1_0000;
      SurrogateOctets(v);
      UnitOfTwo(c.big, 0xD8 + v / 0x4_0000, v / 0x400 % 256);
      UnitOfTwo(c.big, 0xDC + v / 256 % 4, v % 256);
    }
  }

  lemma SurrogateOctets(v: nat)
    requires v < 0x10_0000
    ensures 0xD800 + (v / 0x400) % 0x400 == 256 * (0xD8 + v / 0x4_0000) + v / 0x400 % 256 && v / 0x4_0000 < 4
    ensures 0xDC00 + v % 0x400 == 256 * (0xDC + v / 256 % 4) + v % 256
  {
    var q := v / 0x400;
    assert q / 256 == v / 0x4_0000 && q < 0x400;
    var r := v % 0x400;
    assert v == 0x400 * q + r;
    assert v / 256 == 4 * q + r / 256;
    assert v % 256 == r % 256;
  }

  /** The octets of a character of 32-bit units. */
  lemma WideOctets(c: Codec, u: nat)
    requires c.wide && IsScalar(u)
    ensures UnitOctets(c, ToUtf16(u))
            == if c.big then [0, u / 0x1_0000, u / 256 % 256, u % 256] else [u % 256, u / 256 % 256, u / 0x1_0000, 0]
  {
    Utf16RoundTrip(u);
    var h, m, l := u / 0x1_0000, u / 256 % 256, u % 256;
    assert u / 256 / 256 == h && h < 256 && u / 256 / 256 / 256 == 0;
    if c.big {
      assert BigEndian(1, 0) == [] + [0];
      assert BigEndian(2, h) == BigEndian(1, 0) + [h];
      assert BigEndian(3, u / 256) == BigEndian(2, h) + [m];
      assert BigEndian(4, u) == BigEndian(3, u / 256) + [l];
    } else {
      assert LittleEndian(1, 0) == [0] + [];
      assert LittleEndian(2, h) == [h] + LittleEndian(1, 0);
      assert LittleEndian(3, u / 256) == [m] + LittleEndian(2, h);
      assert LittleEndian(4, u) == [l] + LittleEndian(3, u / 256);
    }
  }

  /** A text in a codec with marks starts with the mark, as these octets, and goes on as without marks. */
  lemma MarkOctets(c: Codec, us: seq<nat>)
    requires Scalars(us) && us != [] && c.useBom
    ensures EncodeStream(c, START, us)
            == (if c.wide then (if c.big then [0, 0, 0xFE, 0xFF] else [0xFF, 0xFE, 0, 0])
                else if c.big then [0xFE, 0xFF] else [0xFF, 0xFE])
               + EncodeStream(c.(useBom := false), START, us)
  {
    MarkFirst(c, us);
    NarrowMark();
    WideMarkPut();
    SameWithoutMark(c, us);
  }

  lemma {:induction false} SameWithoutMark(c: Codec, us: seq<nat>)
    requires Scalars(us) && c.useBom
    ensures EncodeStream(c, Mode(true, false), us) == EncodeStream(c.(useBom := false), START, us)
  {
    if us != [] {
      assert us[0] in us && forall u | u in us[1..] :: u in us;
      NoMarkLeft(c, Mode(true, false), ToUtf16(us[0]));
      NoMarkLeft(c.(useBom := false), START, ToUtf16(us[0]));
      SameWithoutMark(c, us[1..]);
    }
  }

  // The laws under which win_iconv can stop and resume

  /** A UTF codec reads the same character when more input follows, and writes at most eight octets for one. */
  lemma UtfLaws(c: Codec)
    ensures Prefixed(UtfConv(c).mbtowc)
    ensures forall n :: n >= 8 ==> AtMost(UtfConv(c), n)
  {
    forall mode, a, b | UtfConv(c).mbtowc(mode, a).Read?
      ensures UtfConv(c).mbtowc(mode, a + b) == UtfConv(c).mbtowc(mode, a)
    {
      MoreInput(c, mode, a, b);
    }
  }

  lemma MoreInput(c: Codec, mode: Mode, a: seq<byte>, b: seq<byte>)
    requires MbToWc(c, mode, a).Read?
    ensures MbToWc(c, mode, a + b) == MbToWc(c, mode, a)
  {
    var n := Units(c);
    assert (a + b)[..n] == a[..n];
    if |a| >= 4 {
      assert (a + b)[2..4] == a[2..4];
    }
  }
}
