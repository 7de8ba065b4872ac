/** The addresses of a bound user: ExplicitUserAddress, RangeUserAddress and the parsing of the address range field. */
module Addresses {
  import opened Bytes
  import opened Sequences
  import Unpack

  const BAR: byte := 0x7C
  const DASH: byte := 0x2D
  const PLUS: byte := 0x2B

  // Numbers in text

  predicate IsDigit(c: byte) {
    0x30 <= c <= 0x39
  }

  predicate IsSpace(c: byte) {
    c == 0x20 || 0x09 <= c <= 0x0D
  }

  predicate Digits(s: seq<byte>) {
    forall c | c in s :: IsDigit(c)
  }

  /** The number that the digits of s stand for; other octets count as whatever they are. */
  function Value(s: seq<byte>): int {
    if s == [] then 0
    else
      var c: int := s[|s| - 1];
      Value(s[..|s| - 1]) * 10 + (c - 0x30)
  }

  const INT_MAX := 0x7FFF_FFFF
  const LONG_MAX := 0x7FFF_FFFF_FFFF_FFFF

  /** The conversion of a long to int. */
  function ToInt(v: int): int {
    var low := v % 0x1_0000_0000;
    if low > INT_MAX then low - 0x1_0000_0000 else low
  }

  function SkipSpaces(s: seq<byte>): (r: seq<byte>)
    ensures |r| <= |s|
  {
    if s != [] && IsSpace(s[0]) then SkipSpaces(s[1..]) else s
  }

  /** strtol in base 10 when it reads the whole C string s; None when something is left over. */
  function StrToL(s: seq<byte>): Option<int> {
    if s == [] then Some(0)
    else
      var t := SkipSpaces(s);
      var signed := t != [] && (t[0] == PLUS || t[0] == DASH);
      var digits := if signed then t[1..] else t;
      if digits == [] || !Digits(digits) then None
      else
        var v := Value(digits);
        if signed && t[0] == DASH then Some(if v > LONG_MAX then -LONG_MAX - 1 else -v)
        else Some(if v > LONG_MAX then LONG_MAX else v)
  }

  /** lexical_cast<int> does not throw; the text has no minus sign, since it comes from between two of them. */
  predicate IsInt(s: seq<byte>) {
    var digits := if s != [] && s[0] == PLUS then s[1..] else s;
    digits != [] && Digits(digits) && Value(digits) <= INT_MAX
  }

  /** atoi of a text that lexical_cast accepts. */
  function AToI(s: seq<byte>): int {
    Value(if s != [] && s[0] == PLUS then s[1..] else s)
  }

  // The order of std::string

  predicate Greater(a: seq<byte>, b: seq<byte>) {
    if a == [] then false
    else if b == [] then true
    else a[0] > b[0] || (a[0] == b[0] && Greater(a[1..], b[1..]))
  }

  // One address

  datatype Address = Explicit(text: seq<byte>) | Range(first: seq<byte>, last: seq<byte>)

  predicate Matches(a: Address, address: seq<byte>) {
    match a
    case Explicit(text) => address == text
    case Range(first, last) =>
      && |first| <= |address| <= |last|
      && var v := StrToL(Unpack.CString(address));
      && v.Some?
      && AToI(first) <= ToInt(v.value) <= AToI(last)
  }

  predicate Owns(addresses: seq<Address>, address: seq<byte>) {
    exists k :: 0 <= k < |addresses| && Matches(addresses[k], address)
  }

  /** SMPPUser::ownsAddress */
  method OwnsAddress(addresses: seq<Address>, address: seq<byte>) returns (owns: bool)
    ensures owns == Owns(addresses, address)
  {
    var k := 0;
    while k < |addresses|
      invariant 0 <= k <= |addresses|
      invariant forall i | 0 <= i < k :: !Matches(addresses[i], address)
    {
      if Matches(addresses[k], address) { return true; }
      k := k + 1;
    }
    return false;
  }

  // Splitting

  /** algorithm::split at one separator, empty pieces kept. */
  function Split(s: seq<byte>, sep: byte): (pieces: seq<seq<byte>>)
    ensures pieces != []
  {
    if s == [] then [[]]
    else
      var rest := Split(s[1..], sep);
      if s[0] == sep then [[]] + rest else [[s[0]] + rest[0]] + rest[1..]
  }

  function Join(pieces: seq<seq<byte>>, sep: byte): seq<byte>
    requires pieces != []
  {
    if |pieces| == 1 then pieces[0] else pieces[0] + [sep] + Join(pieces[1..], sep)
  }

  /** Splitting gives the only pieces without the separator that it joins to the text. */
  lemma {:induction false} SplitJoins(s: seq<byte>, sep: byte)
    ensures Join(Split(s, sep), sep) == s
    ensures forall p | p in Split(s, sep) :: sep !in p
  {
    if s != [] {
      SplitJoins(s[1..], sep);
      var rest, all := Split(s[1..], sep), Split(s, sep);
      assert rest[0] in rest;
      if s[0] == sep {
        assert all[1..] == rest;
        assert [] + [sep] + Join(rest, sep) == s;
      } else {
        assert all[1..] == rest[1..];
        if |rest| > 1 {
          assert ([s[0]] + rest[0]) + [sep] + Join(rest[1..], sep) == [s[0]] + (rest[0] + [sep] + Join(rest[1..], sep));
        }
        forall p | p in all ensures sep !in p {
          assert p == [s[0]] + rest[0] || p in rest;
        }
      }
    }
  }

  lemma {:induction false} JoinSplits(pieces: seq<seq<byte>>, sep: byte)
    requires pieces != [] && forall p | p in pieces :: sep !in p
    ensures Split(Join(pieces, sep), sep) == pieces
    decreases |pieces|, |pieces[0]|
  {
    var s := Join(pieces, sep);
    if pieces[0] == [] {
      if |pieces| > 1 {
        assert s == [sep] + Join(pieces[1..], sep);
        assert s[1..] == Join(pieces[1..], sep);
        JoinSplits(pieces[1..], sep);
      }
    } else {
      var c, shorter := pieces[0][0], [pieces[0][1..]] + pieces[1..];
      assert pieces[0] in pieces && c in pieces[0];
      forall p | p in shorter ensures sep !in p {
        assert p == pieces[0][1..] || p in pieces;
      }
      assert shorter[1..] == pieces[1..];
      assert s == [c] + Join(shorter, sep);
      assert s[1..] == Join(shorter, sep);
      JoinSplits(shorter, sep);
      assert [c] + shorter[0] == pieces[0];
    }
  }

  // Parsing

  /** One piece of the address range: a plain address, or two numbers with a dash between them. */
  function ParsePiece(piece: seq<byte>): Option<Address> {
    var parts := Split(piece, DASH);
    if |parts| == 1 then Some(Explicit(piece))
    else if |parts| == 2 then
      if Greater(parts[0], parts[1]) || !IsInt(parts[0]) || !IsInt(parts[1]) then None
      else Some(Range(parts[0], parts[1]))
    else None
  }

  function ParsePieces(pieces: seq<seq<byte>>): Option<seq<Address>> {
    if pieces == [] then Some([])
    else
      match ParsePiece(pieces[0])
      case None => None
      case Some(a) =>
        match ParsePieces(pieces[1..])
        case None => None
        case Some(more) => Some([a] + more)
  }

  /** The addresses of a user that does not only transmit: None when the bind is rejected. */
  function ParseAddresses(text: seq<byte>): Option<seq<Address>> {
    if text == [] then None else ParsePieces(Split(text, BAR))
  }

  /** What parsing gives once the addresses of the pieces so far are known. */
  function Onto(addresses: seq<Address>, rest: Option<seq<Address>>): Option<seq<Address>> {
    match rest
    case None => None
    case Some(more) => Some(addresses + more)
  }

  lemma OntoNext(addresses: seq<Address>, pieces: seq<seq<byte>>)
    requires pieces != []
    ensures match ParsePiece(pieces[0])
            case None => Onto(addresses, ParsePieces(pieces)) == None
            case Some(a) => Onto(addresses, ParsePieces(pieces)) == Onto(addresses + [a], ParsePieces(pieces[1..]))
  {
    if ParsePiece(pieces[0]).Some? && ParsePieces(pieces[1..]).Some? {
      var a, more := ParsePiece(pieces[0]).value, ParsePieces(pieces[1..]).value;
      assert addresses + ([a] + more) == (addresses + [a]) + more;
    }
  }

  lemma OntoNothing(r: Option<seq<Address>>)
    ensures Onto([], r) == r
  {
    if r.Some? { assert [] + r.value == r.value; }
  }

  method ParseUserAddresses(text: seq<byte>) returns (r: Option<seq<Address>>)
    ensures r == ParseAddresses(text)
  {
    if text == [] { return None; }
    var addresses: seq<Address> := [];
    var pieces := Split(text, BAR);
    var i := 0;
    assert pieces[i..] == pieces;
    OntoNothing(ParsePieces(pieces));
    while i < |pieces|
      invariant 0 <= i <= |pieces|
      invariant ParsePieces(pieces) == Onto(addresses, ParsePieces(pieces[i..]))
    {
      assert pieces[i..][1..] == pieces[i + 1..];
      OntoNext(addresses, pieces[i..]);
      var parts := Split(pieces[i], DASH);
      var address: Option<Address> := None;
      if |parts| == 1 {
        address := Some(Explicit(pieces[i]));
      } else if |parts| == 2 {
        var invalidRange := Greater(parts[0], parts[1]);
        if !invalidRange {
          invalidRange := !IsInt(parts[0]) || !IsInt(parts[1]);
        }
        if invalidRange { return None; }
        address := Some(Range(parts[0], parts[1]));
      }
      if address.None? { return None; }
      addresses := addresses + [address.value];
      i := i + 1;
    }
    assert addresses + [] == addresses;
    return Some(addresses);
  }

  /** A list is accepted exactly when every piece is, and owns an address exactly when some piece does. */
  lemma {:induction false} OwnsByPiece(pieces: seq<seq<byte>>, address: seq<byte>)
    ensures ParsePieces(pieces).Some? <==> forall p | p in pieces :: ParsePiece(p).Some?
    ensures ParsePieces(pieces).Some? ==>
              (Owns(ParsePieces(pieces).value, address)
               <==> exists p :: p in pieces && ParsePiece(p).Some? && Matches(ParsePiece(p).value, address))
  {
    if pieces != [] {
      OwnsByPiece(pieces[1..], address);
      assert pieces == [pieces[0]] + pieces[1..];
      if ParsePieces(pieces).Some? {
        var a, more := ParsePiece(pieces[0]).value, ParsePieces(pieces[1..]).value;
        OwnsCons(a, more, address);
      }
    }
  }

  lemma OwnsCons(a: Address, more: seq<Address>, address: seq<byte>)
    ensures Owns([a] + more, address) <==> Matches(a, address) || Owns(more, address)
  {
    var all := [a] + more;
    if Matches(a, address) { assert Matches(all[0], address); }
    if Owns(more, address) {
      var k :| 0 <= k < |more| && Matches(more[k], address);
      assert Matches(all[k + 1], address);
    }
    if Owns(all, address) {
      var k :| 0 <= k < |all| && Matches(all[k], address);
      if k > 0 { assert Matches(more[k - 1], address); }
    }
  }

  // Ranges of numbers

  function Pow10(n: nat): (p: nat)
    ensures p > 0
  {
    if n == 0 then 1 else 10 * Pow10(n - 1)
  }

  /** Digits never carry: the value of a digit string stays below the power of ten of its length. */
  lemma {:induction false} ValueBelow(s: seq<byte>)
    requires Digits(s)
    ensures 0 <= Value(s) < Pow10(|s|)
  {
    if s != [] {
      assert s[|s| - 1] in s;
      ValueBelow(s[..|s| - 1]);
    }
  }

  lemma {:induction false} Pow10Grows(m: nat, n: nat)
    requires m <= n
    ensures Pow10(m) <= Pow10(n)
  {
    if m < n { Pow10Grows(m, n - 1); }
  }

  /** The value of a digit string read from its first digit. */
  lemma {:induction false} ValueFromFirst(s: seq<byte>)
    requires s != []
    ensures Value(s) == (s[0] as int - 0x30) * Pow10(|s| - 1) + Value(s[1..])
  {
    if |s| == 1 {
      assert s[..0] == [] && s[1..] == [];
    } else {
      var front := s[..|s| - 1];
      ValueFromFirst(front);
      assert front[1..] == s[1..][..|s| - 2];
      assert Pow10(|s| - 1) == 10 * Pow10(|s| - 2);
      TenTimes(s[0] as int - 0x30, Pow10(|s| - 2));
    }
  }

  lemma TenTimes(d: int, p: int)
    ensures d * p * 10 == d * (10 * p)
  {
  }

  lemma LeadingDigit(d: int, e: int, p: int, v: int, w: int)
    requires 0 <= v < p && 0 <= w < p
    ensures d > e ==> d * p + v > e * p + w
  {
    if d > e { assert d * p >= (e + 1) * p; }
  }

  /** On digit strings of one length the order of strings is the order of numbers. */
  lemma {:induction false} OrderIsNumeric(a: seq<byte>, b: seq<byte>)
    requires |a| == |b| && Digits(a) && Digits(b)
    ensures Greater(a, b) <==> Value(a) > Value(b)
  {
    if a != [] {
      var p := Pow10(|a| - 1);
      OrderIsNumeric(a[1..], b[1..]);
      ValueFromFirst(a);
      ValueFromFirst(b);
      ValueBelow(a[1..]);
      ValueBelow(b[1..]);
      var d: int, e: int := a[0], b[0];
      LeadingDigit(d - 0x30, e - 0x30, p, Value(a[1..]), Value(b[1..]));
      LeadingDigit(e - 0x30, d - 0x30, p, Value(b[1..]), Value(a[1..]));
    }
  }

  /** Bounds of one to nine digits each. */
  predicate Bounds(a: seq<byte>, b: seq<byte>) {
    Digits(a) && Digits(b) && 1 <= |a| <= 9 && 1 <= |b| <= 9
  }

  lemma SmallNumber(s: seq<byte>)
    requires Digits(s) && |s| <= 9
    ensures 0 <= Value(s) <= INT_MAX && ToInt(Value(s)) == Value(s)
  {
    ValueBelow(s);
    Pow10Grows(|s|, 9);
    assert Pow10(9) == 1_000_000_000;
  }

  lemma DigitsRead(s: seq<byte>)
    requires s != [] && Digits(s)
    ensures StrToL(s) == Some(if Value(s) > LONG_MAX then LONG_MAX else Value(s))
    ensures s[0] != PLUS && s[0] != DASH
  {
    assert s[0] in s;
    assert SkipSpaces(s) == s;
  }

  lemma TwoPieces(a: seq<byte>, b: seq<byte>)
    requires DASH !in a && DASH !in b
    ensures Split(a + [DASH] + b, DASH) == [a, b]
  {
    var pieces := [a, b];
    assert pieces[1..] == [b];
    JoinSplits(pieces, DASH);
  }

  /** The bounds of a range as ParsePiece reads them. */
  lemma BoundsRead(a: seq<byte>, b: seq<byte>)
    requires Bounds(a, b)
    ensures IsInt(a) && IsInt(b) && AToI(a) == Value(a) && AToI(b) == Value(b)
    ensures DASH !in a && DASH !in b
  {
    SmallNumber(a);
    SmallNumber(b);
    DigitsRead(a);
    DigitsRead(b);
  }

  lemma {:induction false} PrefixDecides(a: seq<byte>, b: seq<byte>)
    ensures |a| <= |b| ==> (Greater(a, b) <==> Greater(a, b[..|a|]))
    ensures |a| > |b| ==> (Greater(a, b) <==> !Greater(b, a[..|b|]))
  {
    if a != [] && b != [] {
      PrefixDecides(a[1..], b[1..]);
      if |a| <= |b| {
        assert b[..|a|][1..] == b[1..][..|a| - 1];
      } else {
        assert a[..|b|][1..] == a[1..][..|b| - 1];
      }
    }
  }

  /** The order of strings that ParsePiece asks for, in numbers: the longer bound counts with its first digits only. */
  predicate InOrder(a: seq<byte>, b: seq<byte>) {
    if |a| <= |b| then Value(a) <= Value(b[..|a|]) else Value(a[..|b|]) < Value(b)
  }

  lemma GreaterIsNumeric(a: seq<byte>, b: seq<byte>)
    requires Digits(a) && Digits(b)
    ensures !Greater(a, b) <==> InOrder(a, b)
  {
    PrefixDecides(a, b);
    if |a| <= |b| {
      assert forall c | c in b[..|a|] :: c in b;
      OrderIsNumeric(a, b[..|a|]);
    } else {
      assert forall c | c in a[..|b|] :: c in a;
      OrderIsNumeric(b, a[..|b|]);
    }
  }

  /** A range of digit strings is accepted exactly when its bounds are in order, digit by digit from the first. */
  lemma AcceptedInOrder(a: seq<byte>, b: seq<byte>)
    requires Bounds(a, b)
    ensures ParsePiece(a + [DASH] + b) == if InOrder(a, b) then Some(Range(a, b)) else None
    ensures |a| == |b| ==> (InOrder(a, b) <==> Value(a) <= Value(b))
  {
    BoundsRead(a, b);
    GreaterIsNumeric(a, b);
    TwoPieces(a, b);
    if |a| == |b| { assert b[..|a|] == b; }
  }

  /** What a range matches: texts with a length between those of its bounds, read as a number between. */
  lemma MatchesNumber(a: seq<byte>, b: seq<byte>, x: seq<byte>)
    requires Bounds(a, b)
    ensures var v := StrToL(Unpack.CString(x));
            Matches(Range(a, b), x) <==> |a| <= |x| <= |b| && v.Some? && Value(a) <= ToInt(v.value) <= Value(b)
  {
    BoundsRead(a, b);
  }

  /** Among digit strings, a range matches exactly those of a length and with a number between its bounds. */
  lemma RangeIsNumeric(a: seq<byte>, b: seq<byte>, x: seq<byte>)
    requires Bounds(a, b) && Digits(x)
    ensures Matches(Range(a, b), x) <==> |a| <= |x| <= |b| && Value(a) <= Value(x) <= Value(b)
  {
    MatchesNumber(a, b, x);
    if |a| <= |x| <= |b| {
      SmallNumber(x);
      DigitsRead(x);
      CutAtNul(x);
    }
  }

  lemma {:induction false} ValueOfPrefix(s: seq<byte>, n: nat)
    requires Digits(s) && n <= |s|
    ensures Value(s[..n]) <= Value(s)
  {
    if n == |s| {
      assert s[..n] == s;
    } else {
      var front := s[..|s| - 1];
      assert s[|s| - 1] in s && forall c | c in front :: c in s;
      ValueOfPrefix(front, n);
      ValueBelow(front);
      assert front[..n] == s[..n];
    }
  }

  /** An accepted range matches something, its last bound for one, exactly when its first bound is not the longer. */
  lemma MatchesSome(a: seq<byte>, b: seq<byte>)
    requires Bounds(a, b) && InOrder(a, b)
    ensures (exists x :: Matches(Range(a, b), x)) <==> |a| <= |b|
  {
    if |a| <= |b| {
      ValueOfPrefix(b, |a|);
      RangeIsNumeric(a, b, b);
    } else {
      forall x ensures !Matches(Range(a, b), x) {}
    }
  }

  /** The range 9-10 is rejected, and the range 10-9 is accepted and matches nothing. */
  lemma NineAndTen()
    ensures var nine: seq<byte>, ten: seq<byte> := [0x39], [0x31, 0x30];
            && ParsePiece(nine + [DASH] + ten) == None && Value(nine) < Value(ten)
            && ParsePiece(ten + [DASH] + nine) == Some(Range(ten, nine)) && !exists x :: Matches(Range(ten, nine), x)
  {
    var nine: seq<byte>, ten: seq<byte> := [0x39], [0x31, 0x30];
    ValueOfTwo(0x31, 0x30);
    ValueFromFirst(nine);
    assert ten[..1] == [0x31];
    ValueFromFirst([0x31]);
    AcceptedInOrder(nine, ten);
    AcceptedInOrder(ten, nine);
    MatchesSome(ten, nine);
  }

  /** A number read from a text that is not all digits has a sign or spaces in front of its digits. */
  lemma SignedText(y: seq<byte>) returns (d: seq<byte>)
    requires 1 <= |y| <= 9 && !Digits(y) && StrToL(y).Some?
    ensures d != [] && |d| < |y| && Digits(d)
    ensures StrToL(y).value == Value(d) || StrToL(y).value == -Value(d)
  {
    var t := SkipSpaces(y);
    SkipsAll(y);
    d := if t[0] == PLUS || t[0] == DASH then t[1..] else t;
    SmallNumber(d);
  }

  lemma IntKept(v: int)
    requires -INT_MAX <= v <= INT_MAX
    ensures ToInt(v) == v
  {
  }

  /** So it has fewer digits than the text has octets. */
  lemma SignedBelow(y: seq<byte>)
    requires 1 <= |y| <= 9 && !Digits(y) && StrToL(y).Some?
    ensures 1 < |y| && ToInt(StrToL(y).value) < Pow10(|y| - 1)
  {
    var d := SignedText(y);
    SmallNumber(d);
    ValueBelow(d);
    Pow10Grows(|d|, |y| - 1);
    IntKept(StrToL(y).value);
  }

  lemma ShorterBelow(y: seq<byte>, n: nat)
    requires |y| < n <= 9 && StrToL(y).Some?
    ensures ToInt(StrToL(y).value) < Pow10(n - 1)
  {
    Pow10Grows(|y|, n - 1);
    if y != [] {
      if Digits(y) {
        DigitsBelow(y);
      } else {
        SignedBelow(y);
        Pow10Grows(|y| - 1, n - 1);
      }
    }
  }

  lemma DigitsBelow(y: seq<byte>)
    requires y != [] && |y| <= 9 && Digits(y)
    ensures StrToL(y).Some? && ToInt(StrToL(y).value) < Pow10(|y|)
  {
    DigitsRead(y);
    SmallNumber(y);
    ValueBelow(y);
  }

  lemma CutAtNul(x: seq<byte>)
    ensures if 0 in x then |Unpack.CString(x)| < |x| else Unpack.CString(x) == x
  {
    var y := Unpack.CString(x);
    if |y| == |x| { assert y == x; }
  }

  /** Also when the text x is cut at a NUL; y is what strtol sees of it. */
  lemma FewerDigits(x: seq<byte>, y: seq<byte>)
    requires 1 <= |x| <= 9 && !Digits(x) && StrToL(y).Some?
    requires if 0 in x then |y| < |x| else y == x
    ensures 0 !in x ==> 1 < |x|
    ensures ToInt(StrToL(y).value) < Pow10(|x| - 1)
  {
    if 0 in x {
      ShorterBelow(y, |x|);
    } else {
      SignedBelow(y);
    }
  }

  lemma {:induction false} SkipsAll(x: seq<byte>)
    ensures |SkipSpaces(x)| == |x| ==> SkipSpaces(x) == x
  {
  }

  lemma NonZeroDigit(d: int, p: int, v: int)
    requires d >= 1 && p >= 0 && v >= 0
    ensures d * p + v >= p
  {
    assert d * p >= 1 * p;
  }

  lemma DigitStringMatched(a: seq<byte>, b: seq<byte>, x: seq<byte>)
    requires Bounds(a, b) && |a| == |b| && Matches(Range(a, b), x)
    requires a[0] != 0x30 || (|a| == 1 && 0 !in x)
    ensures Digits(x)
  {
    MatchesNumber(a, b, x);
    if !Digits(x) {
      CutAtNul(x);
      FewerDigits(x, Unpack.CString(x));
      assert a[0] in a;
      ValueFromFirst(a);
      ValueBelow(a[1..]);
      NonZeroDigit(a[0] as int - 0x30, Pow10(|a| - 1), Value(a[1..]));
    }
  }

  function Zeros(n: nat): (z: seq<byte>)
    ensures |z| == n && Digits(z)
  {
    seq(n, _ => 0x30)
  }

  lemma {:induction false} LeadingZeros(n: nat, s: seq<byte>)
    ensures Value(Zeros(n) + s) == Value(s)
  {
    if n == 0 {
      assert Zeros(0) + s == s;
    } else {
      var z := Zeros(n) + s;
      assert z[1..] == Zeros(n - 1) + s;
      ValueFromFirst(z);
      LeadingZeros(n - 1, s);
    }
  }

  /** A plus sign, zeros and digits: what a range matches when its number is in it and its length fits. */
  lemma SignedMatched(a: seq<byte>, b: seq<byte>, n: nat, s: seq<byte>)
    requires Bounds(a, b) && Digits(s) && s != [] && |a| <= 1 + n + |s| <= |b| && Value(a) <= Value(s) <= Value(b)
    ensures var x := [PLUS] + Zeros(n) + s; Matches(Range(a, b), x) && !Digits(x) && 0 !in x
  {
    var d := Zeros(n) + s;
    var x := [PLUS] + d;
    AppendAssociates([PLUS], Zeros(n), s);
    Appended([PLUS], d);
    assert x[0] == PLUS && x[0] in x;
    assert SkipSpaces(x) == x;
    LeadingZeros(n, s);
    SmallNumber(d);
    assert Digits(d);
    CutAtNul(x);
    MatchesNumber(a, b, x);
  }

  lemma NulMatched(b: seq<byte>)
    requires Bounds([0x30], b) && |b| == 1
    ensures Matches(Range([0x30], b), [0]) && !Digits([0])
  {
    var x: seq<byte> := [0];
    assert x[0] in x;
    ValueFromFirst([0x30]);
    ValueBelow(b);
    assert Unpack.CString(x) == [];
    MatchesNumber([0x30], b, x);
  }

  /**
   * An accepted range that matches anything matches only digit strings exactly when its bounds have the same length and
   * the first does not start with a zero; a range of one digit also when addresses hold no NUL.
   */
  lemma OnlyDigitStrings(a: seq<byte>, b: seq<byte>)
    requires Bounds(a, b) && InOrder(a, b) && |a| <= |b|
    ensures (forall x :: Matches(Range(a, b), x) ==> Digits(x)) <==> |a| == |b| && a[0] != 0x30
    ensures (forall x :: Matches(Range(a, b), x) && 0 !in x ==> Digits(x))
            <==> |a| == |b| && (|a| == 1 || a[0] != 0x30)
  {
    if |a| < |b| {
      ValueOfPrefix(b, |a|);
      SignedMatched(a, b, |b| - 1 - |a|, a);
    } else if a[0] != 0x30 {
      forall x | Matches(Range(a, b), x) ensures Digits(x) { DigitStringMatched(a, b, x); }
    } else {
      assert b[..|a|] == b;
      if |a| == 1 {
        assert a == [0x30];
        NulMatched(b);
        forall x | Matches(Range(a, b), x) && 0 !in x ensures Digits(x) { DigitStringMatched(a, b, x); }
      } else {
        assert forall c | c in a[1..] :: c in a;
        ValueFromFirst(a);
        SignedMatched(a, b, 0, a[1..]);
      }
    }
  }

  /** The range 00-99 owns the address +5. */
  lemma SignedAddressOwned()
    ensures ParsePiece([0x30, 0x30, DASH, 0x39, 0x39]) == Some(Range([0x30, 0x30], [0x39, 0x39]))
    ensures Matches(Range([0x30, 0x30], [0x39, 0x39]), [PLUS, 0x35])
  {
    var a: seq<byte>, b: seq<byte>, x: seq<byte> := [0x30, 0x30], [0x39, 0x39], [PLUS, 0x35];
    assert a + [DASH] + b == [0x30, 0x30, DASH, 0x39, 0x39];
    ValueOfTwo(0x30, 0x30);
    ValueOfTwo(0x39, 0x39);
    AcceptedInOrder(a, b);
    assert x[1..] == [0x35];
    assert SkipSpaces(x) == x;
    ValueFromFirst(x[1..]);
    CutAtNul(x);
    MatchesNumber(a, b, x);
  }

  lemma ValueOfTwo(c: byte, d: byte)
    ensures Value([c, d]) == (c as int - 0x30) * 10 + (d as int - 0x30)
  {
    var s := [c, d];
    assert s[..1] == [c];
    ValueFromFirst([c]);
  }

  // Plain addresses, and pieces that are refused

  lemma {:induction false} ParsedExplicit(pieces: seq<seq<byte>>)
    requires forall p | p in pieces :: DASH !in p
    ensures ParsePieces(pieces).Some? && |ParsePieces(pieces).value| == |pieces|
    ensures forall i | 0 <= i < |pieces| :: ParsePieces(pieces).value[i] == Explicit(pieces[i])
  {
    if pieces != [] {
      assert pieces[0] in pieces && forall p | p in pieces[1..] :: p in pieces;
      ParsedExplicit(pieces[1..]);
      PlainPiece(pieces[0]);
    }
  }

  lemma PlainPiece(piece: seq<byte>)
    requires DASH !in piece
    ensures ParsePiece(piece) == Some(Explicit(piece))
  {
    JoinSplits([piece], DASH);
    assert Join([piece], DASH) == piece;
  }

  /** A list of plain addresses, with bars between them, is accepted and owns those addresses and no other text. */
  lemma PlainListOwns(pieces: seq<seq<byte>>, x: seq<byte>)
    requires pieces != [] && pieces != [[]] && forall p | p in pieces :: BAR !in p && DASH !in p
    ensures var r := ParseAddresses(Join(pieces, BAR)); r.Some? && (Owns(r.value, x) <==> x in pieces)
  {
    JoinSplits(pieces, BAR);
    ParsedExplicit(pieces);
    assert Split([], BAR) == [[]];
    var r := ParsePieces(pieces).value;
    if x in pieces {
      var i :| 0 <= i < |pieces| && pieces[i] == x;
      assert Matches(r[i], x);
    }
    if Owns(r, x) {
      var i :| 0 <= i < |r| && Matches(r[i], x);
      assert pieces[i] == x;
    }
  }

  /** A piece with two dashes or more is refused. */
  lemma TwoDashesRefused(a: seq<byte>, b: seq<byte>, rest: seq<byte>)
    requires DASH !in a && DASH !in b
    ensures ParsePiece(a + [DASH] + b + [DASH] + rest) == None
  {
    var more := Split(rest, DASH);
    SplitJoins(rest, DASH);
    var pieces := [a, b] + more;
    assert pieces[1..] == [b] + more && pieces[1..][1..] == more;
    assert Join(pieces, DASH) == a + [DASH] + (b + [DASH] + rest) == a + [DASH] + b + [DASH] + rest;
    JoinSplits(pieces, DASH);
  }

  /** Something else than a number from 0 to 2147483647, perhaps with a plus sign. */
  predicate NoBound(s: seq<byte>) {
    var digits := if s != [] && s[0] == 0x2B then s[1..] else s;
    digits == [] || (exists c :: c in digits && !(0x30 <= c <= 0x39)) || Value(digits) > 2147483647
  }

  /** A range with an end that is no number is refused, whatever its order. */
  lemma BadBoundRefused(a: seq<byte>, b: seq<byte>)
    requires DASH !in a && DASH !in b && (NoBound(a) || NoBound(b))
    ensures ParsePiece(a + [DASH] + b) == None
  {
    TwoPieces(a, b);
  }

  // What strtol reads

  predicate Spaces(s: seq<byte>) {
    forall c | c in s :: c == 0x20 || 0x09 <= c <= 0x0D
  }

  lemma {:induction false} SpacesSkipped(spaces: seq<byte>, rest: seq<byte>)
    requires Spaces(spaces) && (rest == [] || !IsSpace(rest[0]))
    ensures SkipSpaces(spaces + rest) == rest
  {
    if spaces == [] {
      assert spaces + rest == rest;
    } else {
      assert spaces[0] in spaces && forall c | c in spaces[1..] :: c in spaces;
      assert (spaces + rest)[1..] == spaces[1..] + rest;
      SpacesSkipped(spaces[1..], rest);
    }
  }

  lemma {:induction false} SkippedAreSpaces(s: seq<byte>) returns (spaces: seq<byte>)
    ensures Spaces(spaces) && s == spaces + SkipSpaces(s)
    ensures SkipSpaces(s) == [] || !IsSpace(SkipSpaces(s)[0])
  {
    if s != [] && IsSpace(s[0]) {
      var more := SkippedAreSpaces(s[1..]);
      spaces := [s[0]] + more;
    } else {
      spaces := [];
    }
  }

  /** The text is white space, a sign or none, and then digits. */
  predicate IsNumeral(s: seq<byte>, spaces: seq<byte>, sign: seq<byte>, digits: seq<byte>) {
    s == spaces + (sign + digits) && Spaces(spaces) && sign in {[], [0x2B], [0x2D]} && digits != [] && Digits(digits)
  }

  lemma NumeralRead(s: seq<byte>, spaces: seq<byte>, sign: seq<byte>, digits: seq<byte>)
    requires IsNumeral(s, spaces, sign, digits) && |s| <= 9
    ensures StrToL(s) == Some(if sign == [0x2D] then -Value(digits) else Value(digits))
  {
    assert digits[0] in digits;
    SpacesSkipped(spaces, sign + digits);
    if sign != [] { Appended(sign, digits); } else { assert sign + digits == digits; }
    SmallNumber(digits);
  }

  lemma OnlyNumeralsRead(s: seq<byte>) returns (spaces: seq<byte>, sign: seq<byte>, digits: seq<byte>)
    requires s != [] && StrToL(s).Some?
    ensures IsNumeral(s, spaces, sign, digits)
  {
    var t := SkipSpaces(s);
    spaces := SkippedAreSpaces(s);
    sign, digits := [], t;
    if t[0] == PLUS || t[0] == DASH { sign, digits := [t[0]], t[1..]; }
    assert t == sign + digits;
  }

  ghost predicate ReadsBetween(s: seq<byte>, low: int, high: int) {
    exists spaces, sign, digits ::
      && IsNumeral(s, spaces, sign, digits)
      && low <= (if sign == [0x2D] then -Value(digits) else Value(digits)) <= high
  }

  /**
   * A range owns exactly the addresses of a fitting length that read as a number between its bounds: up to the first
   * NUL, white space, a sign or none, and digits; nothing at all reads as 0.
   */
  lemma MatchesExactly(a: seq<byte>, b: seq<byte>, x: seq<byte>)
    requires Bounds(a, b)
    ensures var y := Unpack.CString(x);
            Matches(Range(a, b), x)
            <==> |a| <= |x| <= |b|
                 && ((y == [] && Value(a) == 0) || ReadsBetween(y, Value(a), Value(b)))
  {
    var y := Unpack.CString(x);
    MatchesNumber(a, b, x);
    ValueBelow(a);
    ValueBelow(b);
    if |x| <= |b| {
      if y != [] && StrToL(y).Some? {
        var spaces, sign, digits := OnlyNumeralsRead(y);
        NumeralRead(y, spaces, sign, digits);
        SmallNumber(digits);
        IntKept(StrToL(y).value);
      }
      forall spaces, sign, digits | IsNumeral(y, spaces, sign, digits)
        ensures StrToL(y) == Some(if sign == [0x2D] then -Value(digits) else Value(digits))
        ensures ToInt(StrToL(y).value) == StrToL(y).value
      {
        NumeralRead(y, spaces, sign, digits);
        SmallNumber(digits);
        IntKept(StrToL(y).value);
      }
    }
  }
}
