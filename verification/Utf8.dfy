/** utf8toWStr and wstrToUtf8 of converter.cpp, with a 32-bit wide character. */
module Utf8 {
  import opened Sequences
  import opened Bytes

  const MAX_CODE_POINT := 0x10FFFF
  const QUESTION_MARK: byte := 0x3F
  const REPLACEMENT_CHARACTER := 0xFFFD

  // The encoder

  /** The octets pushed for one wide character: shifts and masks written as division and remainder. */
  function EncodeChar(w: nat): (o: seq<byte>)
    ensures o != []
  {
    if w <= 0x7F then [w]
    else if w <= 0x7FF then [0xC0 + (w / 0x40) % 0x20, 0x80 + w % 0x40]
    else if w <= 0xFFFF then [0xE0 + (w / 0x1000) % 0x10, 0x80 + (w / 0x40) % 0x40, 0x80 + w % 0x40]
    else if w <= MAX_CODE_POINT then
      [0xF0 + (w / 0x40000) % 8, 0x80 + (w / 0x1000) % 0x40, 0x80 + (w / 0x40) % 0x40, 0x80 + w % 0x40]
    else [QUESTION_MARK]
  }

  function EncodeText(src: seq<nat>): seq<byte> {
    if src == [] then [] else EncodeChar(src[0]) + EncodeText(src[1..])
  }

  method WStrToUtf8(src: seq<nat>) returns (dest: seq<byte>)
    ensures dest == EncodeText(src)
  {
    dest := [];
    var i := 0;
    while i < |src|
      invariant 0 <= i <= |src| && EncodeText(src) == dest + EncodeText(src[i..])
    {
      assert src[i..][1..] == src[i + 1..];
      dest := dest + EncodeChar(src[i]);
      i := i + 1;
    }
  }

  // The decoder

  /** The variables of the loop: the character built so far and the number of continuation octets missing. */
  datatype State = State(w: nat, bytes: nat)

  const START := State(0, 0)

  /** One turn of the loop: the new state and the wide characters pushed. */
  function Step(st: State, c: byte): (State, seq<nat>) {
    if c <= 0x7F then (State(st.w, 0), (if st.bytes > 0 then [REPLACEMENT_CHARACTER] else []) + [c])
    else if c <= 0xBF then
      if st.bytes > 0 then
        var w := st.w * 0x40 + c % 0x40;
        (State(w, st.bytes - 1), if st.bytes == 1 then [w] else [])
      else (st, [REPLACEMENT_CHARACTER])
    else if c <= 0xDF then (State(c % 0x20, 1), [])
    else if c <= 0xEF then (State(c % 0x10, 2), [])
    else if c <= 0xF7 then (State(c % 8, 3), [])
    else (State(st.w, 0), [REPLACEMENT_CHARACTER])
  }

  function Run(st: State, src: seq<byte>): (State, seq<nat>)
    decreases |src|
  {
    if src == [] then (st, [])
    else
      var (next, out) := Step(st, src[0]);
      var (last, more) := Run(next, src[1..]);
      (last, out + more)
  }

  function Flush(st: State): seq<nat> {
    if st.bytes > 0 then [REPLACEMENT_CHARACTER] else []
  }

  function Decode(src: seq<byte>): seq<nat> {
    var (last, out) := Run(START, src);
    out + Flush(last)
  }

  method Utf8ToWStr(src: seq<byte>) returns (dest: seq<nat>)
    ensures dest == Decode(src)
  {
    dest := [];
    var w: nat, bytes: nat := 0, 0;
    var i := 0;
    while i < |src|
      invariant 0 <= i <= |src|
      invariant Run(START, src[..i]) == (State(w, bytes), dest)
    {
      var c := src[i];
      ghost var before, was := dest, State(w, bytes);
      if c <= 0x7F {
        if bytes > 0 {
          dest := dest + [REPLACEMENT_CHARACTER];
          bytes := 0;
        }
        dest := dest + [c];
      } else if c <= 0xBF {
        if bytes > 0 {
          w := w * 0x40 + c % 0x40;
          bytes := bytes - 1;
          if bytes == 0 {
            dest := dest + [w];
          }
        } else {
          dest := dest + [REPLACEMENT_CHARACTER];
        }
      } else if c <= 0xDF {
        bytes := 1;
        w := c % 0x20;
      } else if c <= 0xEF {
        bytes := 2;
        w := c % 0x10;
      } else if c <= 0xF7 {
        bytes := 3;
        w := c % 8;
      } else {
        dest := dest + [REPLACEMENT_CHARACTER];
        bytes := 0;
      }
      assert dest == before + Step(was, c).1;
      assert src[..i + 1] == src[..i] + [c];
      RunConcat(START, src[..i], [c]);
      RunOne(was, c);
      i := i + 1;
    }
    assert src[..i] == src;
    if bytes > 0 {
      dest := dest + [REPLACEMENT_CHARACTER];
    } else {
      assert dest + [] == dest;
    }
  }

  lemma RunOne(st: State, c: byte)
    ensures Run(st, [c]) == Step(st, c)
  {
    assert [c][1..] == [];
    assert Step(st, c).1 + [] == Step(st, c).1;
  }

  /** Running over two pieces is running over the first and going on from its state. */
  lemma {:induction false} RunConcat(st: State, a: seq<byte>, b: seq<byte>)
    ensures var (mid, out) := Run(st, a);
            Run(st, a + b) == (Run(mid, b).0, out + Run(mid, b).1)
    decreases |a|
  {
    if a == [] {
      AppendNothing(b);
      AppendNothing(Run(st, b).1);
    } else {
      AppendedRest(a, b);
      var (next, out) := Step(st, a[0]);
      RunConcat(next, a[1..], b);
      var (mid, more) := Run(next, a[1..]);
      AppendAssociates(out, more, Run(mid, b).1);
    }
  }

  /** With no continuation octet missing, what is left of an old character does not matter. */
  lemma {:induction false} StaleCharacter(w: nat, src: seq<byte>)
    ensures Run(State(w, 0), src).1 == Run(START, src).1
    ensures Run(State(w, 0), src).0.bytes == Run(START, src).0.bytes
  {
    if src != [] {
      if src[0] <= 0xBF || src[0] >= 0xF8 {
        StaleCharacter(w, src[1..]);
        StaleCharacter(0, src[1..]);
      }
    }
  }

  /** Decoding splits at every character boundary. */
  lemma DecodeConcat(a: seq<byte>, b: seq<byte>)
    requires Run(START, a).0.bytes == 0
    ensures Decode(a + b) == Decode(a) + Decode(b)
  {
    var (mid, out) := Run(START, a);
    RunConcat(START, a, b);
    StaleCharacter(mid.w, b);
    AppendNothing(out);
    AppendAssociates(out, Run(mid, b).1, Flush(Run(mid, b).0));
  }

  // Wide characters survive encoding

  predicate CodePoints(ws: seq<nat>) {
    forall w | w in ws :: w <= MAX_CODE_POINT
  }

  lemma RunTwo(st: State, a: byte, b: byte)
    ensures var (mid, out) := Step(st, a); Run(st, [a, b]) == (Step(mid, b).0, out + Step(mid, b).1)
  {
    var mid := Step(st, a).0;
    RunOne(mid, b);
    assert [a, b][1..] == [b];
  }

  lemma RunThree(st: State, a: byte, b: byte, c: byte)
    ensures var (mid, out) := Step(st, a); Run(st, [a, b, c]) == (Run(mid, [b, c]).0, out + Run(mid, [b, c]).1)
  {
    assert [a, b, c][1..] == [b, c];
  }

  lemma RunFour(st: State, a: byte, b: byte, c: byte, d: byte)
    ensures var (mid, out) := Step(st, a);
            Run(st, [a, b, c, d]) == (Run(mid, [b, c, d]).0, out + Run(mid, [b, c, d]).1)
  {
    assert [a, b, c, d][1..] == [b, c, d];
  }

  /** The six-bit groups of a code point. */
  lemma Groups(w: nat)
    ensures w == (w / 0x40) * 0x40 + w % 0x40
    ensures w / 0x40 == (w / 0x1000) * 0x40 + (w / 0x40) % 0x40
    ensures w / 0x1000 == (w / 0x40000) * 0x40 + (w / 0x1000) % 0x40
  {
    assert (w / 0x40) / 0x40 == w / 0x1000;
    assert (w / 0x1000) / 0x40 == w / 0x40000;
  }

  lemma TwoOctets(w: nat)
    requires 0x80 <= w <= 0x7FF
    ensures Run(START, EncodeChar(w)).0 == State(w, 0) && Run(START, EncodeChar(w)).1 == [w]
  {
    var o := EncodeChar(w);
    assert Step(START, o[0]) == (State(w / 0x40, 1), []);
    RunTwo(START, o[0], o[1]);
    assert o == [o[0], o[1]];
  }

  lemma ContinuationStep(w: nat, missing: nat, x: nat)
    requires missing > 0 && x < 0x40
    ensures Step(State(w, missing), 0x80 + x)
            == (State(w * 0x40 + x, missing - 1), if missing == 1 then [w * 0x40 + x] else [])
  {
  }

  lemma RunOfThree(a: nat, b: nat, c: nat)
    requires a < 0x10 && b < 0x40 && c < 0x40
    ensures var w := (a * 0x40 + b) * 0x40 + c;
            Run(START, [0xE0 + a, 0x80 + b, 0x80 + c]) == (State(w, 0), [w])
  {
    var w1 := a * 0x40 + b;
    assert Step(START, 0xE0 + a) == (State(a, 2), []);
    ContinuationStep(a, 2, b);
    ContinuationStep(w1, 1, c);
    RunThree(START, 0xE0 + a, 0x80 + b, 0x80 + c);
    RunTwo(State(a, 2), 0x80 + b, 0x80 + c);
    var w := w1 * 0x40 + c;
    assert [] + ([] + [w]) == [w];
  }

  lemma ThreeOctets(w: nat)
    requires 0x800 <= w <= 0xFFFF
    ensures Run(START, EncodeChar(w)).0 == State(w, 0) && Run(START, EncodeChar(w)).1 == [w]
  {
    Groups(w);
    assert w / 0x1000 < 0x10;
    var a, b, c := w / 0x1000, (w / 0x40) % 0x40, w % 0x40;
    assert EncodeChar(w) == [0xE0 + a, 0x80 + b, 0x80 + c];
    RunOfThree(a, b, c);
  }

  lemma RunOfFour(a: nat, b: nat, c: nat, d: nat)
    requires a < 8 && b < 0x40 && c < 0x40 && d < 0x40
    ensures var w := ((a * 0x40 + b) * 0x40 + c) * 0x40 + d;
            Run(START, [0xF0 + a, 0x80 + b, 0x80 + c, 0x80 + d]) == (State(w, 0), [w])
  {
    var w1 := a * 0x40 + b;
    var w2 := w1 * 0x40 + c;
    assert Step(START, 0xF0 + a) == (State(a, 3), []);
    ContinuationStep(a, 3, b);
    ContinuationStep(w1, 2, c);
    ContinuationStep(w2, 1, d);
    RunFour(START, 0xF0 + a, 0x80 + b, 0x80 + c, 0x80 + d);
    RunThree(State(a, 3), 0x80 + b, 0x80 + c, 0x80 + d);
    RunTwo(State(w1, 2), 0x80 + c, 0x80 + d);
    var w := w2 * 0x40 + d;
    assert [] + ([] + ([] + [w])) == [w];
  }

  lemma FourOctets(w: nat)
    requires 0x10000 <= w <= MAX_CODE_POINT
    ensures Run(START, EncodeChar(w)).0 == State(w, 0) && Run(START, EncodeChar(w)).1 == [w]
  {
    Groups(w);
    assert w / 0x40000 < 8;
    var a, b, c, d := w / 0x40000, (w / 0x1000) % 0x40, (w / 0x40) % 0x40, w % 0x40;
    assert EncodeChar(w) == [0xF0 + a, 0x80 + b, 0x80 + c, 0x80 + d];
    RunOfFour(a, b, c, d);
  }

  lemma CharRoundTrip(w: nat)
    requires w <= MAX_CODE_POINT
    ensures Run(START, EncodeChar(w)).1 == [w] && Run(START, EncodeChar(w)).0.bytes == 0
  {
    var o := EncodeChar(w);
    if w <= 0x7F {
      RunOne(START, o[0]);
    } else if w <= 0x7FF {
      TwoOctets(w);
    } else if w <= 0xFFFF {
      ThreeOctets(w);
    } else {
      FourOctets(w);
    }
  }

  lemma {:induction false} DecodeEncoded(ws: seq<nat>)
    requires CodePoints(ws)
    ensures Decode(EncodeText(ws)) == ws
  {
    if ws != [] {
      assert ws[0] in ws && forall w | w in ws[1..] :: w in ws;
      CharRoundTrip(ws[0]);
      DecodeConcat(EncodeChar(ws[0]), EncodeText(ws[1..]));
      DecodeEncoded(ws[1..]);
      assert ws == [ws[0]] + ws[1..];
    }
  }

  // Which octet strings survive decoding

  predicate Continuation(c: byte) {
    0x80 <= c <= 0xBF
  }

  /** The number of octets of a character that starts with c; 0 when none does. */
  function LeadLength(c: byte): nat {
    if c <= 0x7F then 1
    else if 0xC2 <= c <= 0xDF then 2
    else if 0xE0 <= c <= 0xEF then 3
    else if 0xF0 <= c <= 0xF4 then 4
    else 0
  }

  /** The UTF8-char of section 4 of RFC 3629, with the encoded surrogates it leaves out let in. */
  predicate IsChar(s: seq<byte>) {
    && s != [] && |s| == LeadLength(s[0])
    && (forall i | 1 <= i < |s| :: Continuation(s[i]))
    && (s[0] == 0xE0 ==> s[1] >= 0xA0)
    && (s[0] == 0xF0 ==> s[1] >= 0x90)
    && (s[0] == 0xF4 ==> s[1] <= 0x8F)
  }

  predicate IsSurrogate(s: seq<byte>) {
    |s| == 3 && s[0] == 0xED && s[1] >= 0xA0
  }

  /** A run of characters in their shortest form; WellFormed is what RFC 3629 allows. */
  predicate ShortestForm(b: seq<byte>) {
    b == [] ||
    var n := LeadLength(b[0]);
    0 < n <= |b| && IsChar(b[..n]) && ShortestForm(b[n..])
  }

  predicate WellFormed(b: seq<byte>) {
    b == [] ||
    var n := LeadLength(b[0]);
    0 < n <= |b| && IsChar(b[..n]) && !IsSurrogate(b[..n]) && WellFormed(b[n..])
  }

  /** The low bits of an octet. */
  function Low(c: byte, m: nat): nat
    requires m > 0
  {
    c % m
  }

  function CodePoint(s: seq<byte>): nat
    requires IsChar(s)
  {
    if |s| == 1 then s[0]
    else if |s| == 2 then Low(s[0], 0x20) * 0x40 + Low(s[1], 0x40)
    else if |s| == 3 then (Low(s[0], 0x10) * 0x40 + Low(s[1], 0x40)) * 0x40 + Low(s[2], 0x40)
    else ((Low(s[0], 8) * 0x40 + Low(s[1], 0x40)) * 0x40 + Low(s[2], 0x40)) * 0x40 + Low(s[3], 0x40)
  }

  /** Putting six-bit groups together and taking them apart again. */
  lemma Composed(a: nat, b: nat, c: nat)
    requires b < 0x40 && c < 0x40
    ensures var w := (a * 0x40 + b) * 0x40 + c;
            w / 0x1000 == a && w / 0x40 == a * 0x40 + b && (w / 0x40) % 0x40 == b && w % 0x40 == c
  {
    var w := (a * 0x40 + b) * 0x40 + c;
    assert w / 0x40 == a * 0x40 + b;
    assert (w / 0x40) / 0x40 == w / 0x1000;
  }

  lemma CharOfCodePoint(s: seq<byte>)
    requires IsChar(s)
    ensures CodePoint(s) <= MAX_CODE_POINT && EncodeChar(CodePoint(s)) == s
  {
    if |s| == 2 {
      TwoOctetCodePoint(s);
    } else if |s| == 3 {
      ThreeOctetCodePoint(s);
    } else if |s| == 4 {
      FourOctetCodePoint(s);
    }
  }

  /** An octet is its lead or continuation bits and its low bits. */
  lemma OctetBits(c: byte)
    ensures Continuation(c) ==> c == 0x80 + Low(c, 0x40)
    ensures 0xC0 <= c <= 0xDF ==> c == 0xC0 + Low(c, 0x20)
    ensures 0xE0 <= c <= 0xEF ==> c == 0xE0 + Low(c, 0x10)
    ensures 0xF0 <= c <= 0xF7 ==> c == 0xF0 + Low(c, 8)
  {
  }

  lemma TwoOctetCodePoint(s: seq<byte>)
    requires IsChar(s) && |s| == 2
    ensures 0x80 <= CodePoint(s) <= 0x7FF && EncodeChar(CodePoint(s)) == s
  {
    assert Continuation(s[1]);
    OctetBits(s[0]);
    OctetBits(s[1]);
    assert s == [0xC0 + Low(s[0], 0x20), 0x80 + Low(s[1], 0x40)];
  }

  lemma ThreeOctetCodePoint(s: seq<byte>)
    requires IsChar(s) && |s| == 3
    ensures 0x800 <= CodePoint(s) <= 0xFFFF && EncodeChar(CodePoint(s)) == s
  {
    assert Continuation(s[1]) && Continuation(s[2]);
    OctetBits(s[0]);
    OctetBits(s[1]);
    OctetBits(s[2]);
    var a, b, c := Low(s[0], 0x10), Low(s[1], 0x40), Low(s[2], 0x40);
    Composed(a, b, c);
    assert s == [0xE0 + a, 0x80 + b, 0x80 + c];
  }

  lemma FourOctetCodePoint(s: seq<byte>)
    requires IsChar(s) && |s| == 4
    ensures 0x10000 <= CodePoint(s) <= MAX_CODE_POINT && EncodeChar(CodePoint(s)) == s
  {
    assert Continuation(s[1]) && Continuation(s[2]) && Continuation(s[3]);
    OctetBits(s[0]);
    OctetBits(s[1]);
    OctetBits(s[2]);
    OctetBits(s[3]);
    var a, b, c, d := Low(s[0], 8), Low(s[1], 0x40), Low(s[2], 0x40), Low(s[3], 0x40);
    Composed(a * 0x40 + b, c, d);
    Composed(a, b, c);
    FourGroups(CodePoint(s), a, b, c, d);
    assert s == [0xF0 + a, 0x80 + b, 0x80 + c, 0x80 + d];
  }

  lemma FourGroups(w: nat, a: nat, b: nat, c: nat, d: nat)
    requires b < 0x40 && w / 0x1000 == a * 0x40 + b
    ensures w / 0x40000 == a && (w / 0x1000) % 0x40 == b
  {
    assert (w / 0x1000) / 0x40 == w / 0x40000;
  }

  lemma EncodedIsChar(w: nat)
    ensures IsChar(EncodeChar(w))
  {
    Groups(w);
    var a, b, c := w / 0x40000, w / 0x1000, w / 0x40;
    if 0x7F < w <= 0x7FF {
      assert 2 <= c < 0x20;
    } else if 0x7FF < w <= 0xFFFF {
      assert b < 0x10 && c >= 0x20;
    } else if 0xFFFF < w <= MAX_CODE_POINT {
      assert a <= 4 && 0x10 <= b <= 0x10F;
    }
  }

  lemma {:induction false} EncodedIsShortest(ws: seq<nat>)
    ensures ShortestForm(EncodeText(ws))
  {
    if ws != [] {
      var c, b := EncodeChar(ws[0]), EncodeText(ws);
      EncodedIsChar(ws[0]);
      EncodedIsShortest(ws[1..]);
      assert b[..|c|] == c && b[|c|..] == EncodeText(ws[1..]);
    }
  }

  lemma CharDecoded(c: seq<byte>)
    requires IsChar(c)
    ensures Decode(c) == [CodePoint(c)] && Run(START, c).0.bytes == 0
    ensures EncodeChar(CodePoint(c)) == c && CodePoint(c) <= MAX_CODE_POINT
  {
    CharOfCodePoint(c);
    CharRoundTrip(CodePoint(c));
  }

  lemma DecodeFirst(c: seq<byte>, more: seq<byte>)
    requires IsChar(c)
    ensures Decode(c + more) == [CodePoint(c)] + Decode(more)
    ensures EncodeText([CodePoint(c)] + Decode(more)) == c + EncodeText(Decode(more))
    ensures CodePoints(Decode(more)) ==> CodePoints([CodePoint(c)] + Decode(more))
  {
    CharDecoded(c);
    DecodeConcat(c, more);
    assert ([CodePoint(c)] + Decode(more))[1..] == Decode(more);
  }

  lemma {:induction false} EncodeDecoded(b: seq<byte>)
    requires ShortestForm(b)
    ensures EncodeText(Decode(b)) == b && CodePoints(Decode(b))
    decreases |b|
  {
    if b != [] {
      var n := LeadLength(b[0]);
      EncodeDecoded(b[n..]);
      DecodeFirst(b[..n], b[n..]);
      assert b == b[..n] + b[n..];
    }
  }

  /** Decoding loses nothing exactly for the strings in shortest form. */
  lemma DecodeLossless(b: seq<byte>)
    ensures EncodeText(Decode(b)) == b <==> ShortestForm(b)
  {
    if ShortestForm(b) {
      EncodeDecoded(b);
    } else {
      EncodedIsShortest(Decode(b));
    }
  }

  lemma {:induction false} WellFormedIsShortest(b: seq<byte>)
    requires WellFormed(b)
    ensures ShortestForm(b)
    decreases |b|
  {
    if b != [] {
      WellFormedIsShortest(b[LeadLength(b[0])..]);
    }
  }

  /** Every string that RFC 3629 calls UTF-8 comes back unchanged. */
  lemma WellFormedRoundTrip(b: seq<byte>)
    requires WellFormed(b)
    ensures EncodeText(Decode(b)) == b
  {
    WellFormedIsShortest(b);
    EncodeDecoded(b);
  }

  // What becomes of ill-formed octets

  /** How many continuation octets an octet asks for. */
  function Missing(c: byte): nat {
    if 0xC0 <= c <= 0xDF then 1 else if 0xE0 <= c <= 0xEF then 2 else if 0xF0 <= c <= 0xF7 then 3 else 0
  }

  /** A character that is cut: its first octet and fewer continuation octets than that asks for. */
  predicate CutShort(p: seq<byte>) {
    && p != [] && 1 <= |p| <= Missing(p[0])
    && forall i | 1 <= i < |p| :: 0x80 <= p[i] <= 0xBF
  }

  lemma {:induction false} CutShortRun(p: seq<byte>)
    requires CutShort(p)
    ensures Run(START, p).1 == [] && Run(START, p).0.bytes == Missing(p[0]) + 1 - |p|
    decreases |p|
  {
    if |p| == 1 {
      RunOne(START, p[0]);
      assert p == [p[0]];
    } else {
      var front, last := p[..|p| - 1], p[|p| - 1];
      CutShortRun(front);
      RunConcat(START, front, [last]);
      RunOne(Run(START, front).0, last);
      assert p == front + [last];
    }
  }

  /** An octet behind a cut character, or behind none: what comes out, and what the loop still remembers. */
  lemma OctetBehind(p: seq<byte>, c: byte)
    requires p == [] || CutShort(p)
    requires p != [] ==> c <= 0x7F || c >= 0xC0
    ensures var (st, out) := Run(START, p + [c]);
            if c <= 0x7F then out == (if p == [] then [] else [0xFFFD]) + [c as int] && st.bytes == 0
            else if c <= 0xBF || c >= 0xF8 then out == [0xFFFD] && st.bytes == 0
            else out == [] && st == Run(START, [c]).0
  {
    if p != [] { CutShortRun(p); }
    RunConcat(START, p, [c]);
    RunOne(Run(START, p).0, c);
    RunOne(START, c);
  }

  /**
   * Behind any octets a that end with a character, and a character p that is cut, if there is one: an ASCII octet comes
   * out with one U+FFFD in front for the cut character, a stray continuation octet and an octet from F8 on are one
   * U+FFFD, and the first octet of the next character makes the cut one vanish without a trace.
   */
  lemma IllFormed(a: seq<byte>, p: seq<byte>, c: byte, b: seq<byte>)
    requires Run(START, a).0.bytes == 0 && (p == [] || (CutShort(p) && (c <= 0x7F || c >= 0xC0)))
    ensures Decode(a + (p + [c] + b))
            == Decode(a) + if c <= 0x7F then (if p == [] then [] else [0xFFFD]) + [c as int] + Decode(b)
                           else if c <= 0xBF || c >= 0xF8 then [0xFFFD] + Decode(b)
                           else Decode([c] + b)
  {
    DecodeConcat(a, p + [c] + b);
    OctetBehind(p, c);
    if c <= 0xBF || c >= 0xF8 {
      DecodeConcat(p + [c], b);
      AppendNothing(Run(START, p + [c]).1);
    } else {
      RunConcat(START, p + [c], b);
      RunConcat(START, [c], b);
      RunOne(START, c);
    }
  }

  /** A text that ends inside a character ends with U+FFFD. */
  lemma CutAtEnd(a: seq<byte>, p: seq<byte>)
    requires Run(START, a).0.bytes == 0 && CutShort(p)
    ensures Decode(a + p) == Decode(a) + [0xFFFD]
  {
    DecodeConcat(a, p);
    CutShortRun(p);
  }

  /** A complete run of octets is one character, whatever its value; encoding writes those above U+10FFFF as "?". */
  lemma CompleteRun(p: seq<byte>, c: byte)
    requires CutShort(p) && |p| == Missing(p[0]) && 0x80 <= c <= 0xBF
    ensures |Decode(p + [c])| == 1 && Run(START, p + [c]).0.bytes == 0
    ensures Decode(p + [c])[0] > 0x10FFFF ==> EncodeText(Decode(p + [c])) == [0x3F]
  {
    CutShortRun(p);
    RunConcat(START, p, [c]);
    RunOne(Run(START, p).0, c);
    var w := Decode(p + [c]);
    assert w[1..] == [];
  }
}
