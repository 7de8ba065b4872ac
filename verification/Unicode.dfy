/** The UTF-16 and UTF-32 codecs of win_iconv.c: one character at a time, with a mode that is carried along. */
module Unicode {
  import opened Bytes

  /** A codec: 32-bit or 16-bit units, byte order, and FLAG_USE_BOM. */
  datatype Codec = Codec(wide: bool, big: bool, useBom: bool)

  /** UNICODE_MODE_BOM_DONE and UNICODE_MODE_SWAPPED. */
  datatype Mode = Mode(bomDone: bool, swapped: bool)

  const START := Mode(false, false)

  /** EINVAL: the input ends inside a character. EILSEQ: not a character. E2BIG: no room. */
  datatype Errno = EINVAL | EILSEQ | E2BIG

  // Surrogate pairs (section 2 of RFC 2781)

  predicate IsScalar(u: nat) {
    u < 0xD800 || 0xE000 <= u <= 0x10FFFF
  }

  predicate IsHigh(w: nat) {
    0xD800 <= w <= 0xDBFF
  }

  predicate IsLow(w: nat) {
    0xDC00 <= w <= 0xDFFF
  }

  /** One character as UTF-16 units, the form in which it passes from one codec to the other. */
  predicate IsWide(w: seq<nat>) {
    || (|w| == 1 && w[0] < 0x1_0000 && !IsHigh(w[0]) && !IsLow(w[0]))
    || (|w| == 2 && IsHigh(w[0]) && IsLow(w[1]))
  }

  type Wide = w: seq<nat> | IsWide(w) witness [0]

  /** ucs4_to_utf16 */
  function ToUtf16(u: nat): Wide
    requires IsScalar(u)
  {
    if u < 0x1_0000 then [u]
    else [0xD800 + ((u - 0x1_0000) / 0x400) % 0x400, 0xDC00 + (u - 0x1_0000) % 0x400]
  }

  /** utf16_to_ucs4 */
  function ToUcs4(w: Wide): nat {
    if IsHigh(w[0]) then (w[0] % 0x400) * 0x400 + w[1] % 0x400 + 0x1_0000 else w[0]
  }

  lemma Utf16RoundTrip(u: nat)
    requires IsScalar(u)
    ensures ToUcs4(ToUtf16(u)) == u
  {
    if u >= 0x1_0000 {
      var v: nat := u - 0x1_0000;
      assert v / 0x400 < 0x400;
      assert v == (v / 0x400) * 0x400 + v % 0x400;
    }
  }

  lemma Ucs4RoundTrip(w: Wide)
    ensures IsScalar(ToUcs4(w)) && ToUtf16(ToUcs4(w)) == w
  {
    if |w| == 2 {
      var a: nat, b: nat := w[0] - 0xD800, w[1] - 0xDC00;
      var v := a * 0x400 + b;
      assert ToUcs4(w) == v + 0x1_0000;
      assert v / 0x400 == a && v % 0x400 == b;
    }
  }

  // Units in either byte order

  function Units(c: Codec): nat {
    if c.wide then 4 else 2
  }

  function LittleEndian(w: nat, n: nat): (s: seq<byte>)
    ensures |s| == w
  {
    if w == 0 then [] else [n % 256] + LittleEndian(w - 1, n / 256)
  }

  function FromLittleEndian(s: seq<byte>): nat {
    if s == [] then 0 else s[0] + 256 * FromLittleEndian(s[1..])
  }

  function PutUnit(w: nat, big: bool, n: nat): (s: seq<byte>)
    ensures |s| == w
  {
    if big then BigEndian(w, n) else LittleEndian(w, n)
  }

  function GetUnit(big: bool, s: seq<byte>): (n: nat)
    ensures n < Pow256(|s|)
  {
    OctetsRoundTrip(s);
    LittleEndianBelow(s);
    if big then FromBigEndian(s) else FromLittleEndian(s)
  }

  lemma {:induction false} LittleEndianBelow(s: seq<byte>)
    ensures FromLittleEndian(s) < Pow256(|s|)
  {
    if s != [] {
      LittleEndianBelow(s[1..]);
    }
  }

  lemma {:induction false} LittleEndianRoundTrip(w: nat, n: nat)
    requires n < Pow256(w)
    ensures FromLittleEndian(LittleEndian(w, n)) == n
  {
    if w > 0 {
      LittleEndianRoundTrip(w - 1, n / 256);
    }
  }

  lemma UnitRoundTrip(w: nat, big: bool, n: nat)
    requires n < Pow256(w)
    ensures GetUnit(big, PutUnit(w, big, n)) == n
  {
    if big { NumberRoundTrip(w, n); } else { LittleEndianRoundTrip(w, n); }
  }

  lemma UnitSizes()
    ensures Pow256(2) == 0x1_0000 && Pow256(4) == 0x1_0000_0000
  {
    assert Pow256(1) == 256;
    assert Pow256(3) == 0x100_0000;
  }

  const BOM := 0xFEFF

  /** What a BOM of the other byte order reads as. */
  function SwappedBom(c: Codec): nat {
    if c.wide then 0xFFFE_0000 else 0xFFFE
  }

  // mbtowc

  /** A character read: the octets used and its units, no character for a BOM. */
  datatype Reading = Wrong(e: Errno) | Read(insize: nat, w: Option<Wide>, mode: Mode)

  /** utf16_mbtowc and utf32_mbtowc. */
  function MbToWc(c: Codec, mode: Mode, buf: seq<byte>): (r: Reading)
    ensures r.Read? ==> 0 < r.insize <= |buf|
    ensures r.Wrong? ==> r.e != E2BIG
  {
    var big := c.big != mode.swapped;
    var n := Units(c);
    if |buf| < n then Wrong(EINVAL)
    else
      var first := GetUnit(big, buf[..n]);
      assert !c.wide ==> first < 0x1_0000 by { UnitSizes(); }
      var atStart := c.useBom && !mode.bomDone;
      var next := if atStart then mode.(bomDone := true) else mode;
      if atStart && first == SwappedBom(c) then Read(n, None, next.(swapped := true))
      else if atStart && first == BOM then Read(n, None, next)
      else if c.wide then
        if IsScalar(first) then Read(4, Some(ToUtf16(first)), next) else Wrong(EILSEQ)
      else if IsLow(first) then Wrong(EILSEQ)
      else if IsHigh(first) then
        if |buf| < 4 then Wrong(EINVAL)
        else
          var second := GetUnit(big, buf[2..4]);
          if IsLow(second) then Read(4, Some([first, second]), next) else Wrong(EILSEQ)
      else Read(2, Some([first]), next)
  }

  // wctomb

  /** The units of a character as octets. */
  function UnitOctets(c: Codec, w: Wide): seq<byte> {
    if c.wide then PutUnit(Units(c), c.big, ToUcs4(w))
    else if |w| == 1 then PutUnit(Units(c), c.big, w[0])
    else PutUnit(Units(c), c.big, w[0]) + PutUnit(Units(c), c.big, w[1])
  }

  /** The mark that goes before the first character. */
  function Mark(c: Codec, mode: Mode): seq<byte> {
    if c.useBom && !mode.bomDone then PutUnit(Units(c), c.big, BOM) else []
  }

  function AfterMark(c: Codec, mode: Mode): Mode {
    if c.useBom then mode.(bomDone := true) else mode
  }

  /** What utf16_wctomb and utf32_wctomb write when there is room for it. */
  function CharOctets(c: Codec, mode: Mode, w: Wide): (o: seq<byte>)
    ensures 0 < |o| <= 8
  {
    Mark(c, mode) + UnitOctets(c, w)
  }

  // csconv_t: the codec as win_iconv sees it, through its function pointers

  predicate Advances(f: (Mode, seq<byte>) -> Reading, mode: Mode, buf: seq<byte>) {
    match f(mode, buf)
    case Read(insize, _, _) => 0 < insize <= |buf|
    case Wrong(e) => e != E2BIG
  }

  /** A reader of characters: uses at least one octet and no more than there are. */
  type Reader = f: (Mode, seq<byte>) -> Reading | forall mode, buf :: Advances(f, mode, buf)
    witness (mode: Mode, buf: seq<byte>) => Wrong(EINVAL)

  /** The writer gives the octets of a character and the mode behind it, for when there is room. */
  datatype Csconv = Csconv(mbtowc: Reader, wctomb: (Mode, Wide) -> (seq<byte>, Mode))

  function UtfReader(c: Codec): (f: Reader)
    ensures forall mode, buf :: f(mode, buf) == MbToWc(c, mode, buf)
  {
    var f := (mode: Mode, buf: seq<byte>) => MbToWc(c, mode, buf);
    assert forall mode, buf :: Advances(f, mode, buf);
    f
  }

  /** make_csconv for the UTF codecs. */
  function UtfConv(c: Codec): (v: Csconv)
    ensures forall mode, buf :: v.mbtowc(mode, buf) == MbToWc(c, mode, buf)
    ensures forall mode, w :: v.wctomb(mode, w) == (CharOctets(c, mode, w), AfterMark(c, mode))
  {
    Csconv(UtfReader(c), (mode: Mode, w: Wide) => (CharOctets(c, mode, w), AfterMark(c, mode)))
  }
}
