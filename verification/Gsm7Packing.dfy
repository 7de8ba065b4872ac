/** gsm7_encode of gsm7.c: eight 7-bit characters in seven octets. */
module Gsm7Packing {
  import opened Bytes

  /** Two to the power n, for the shifts. */
  function Pow2(n: nat): (p: nat)
    ensures p > 0
  {
    if n == 0 then 1 else 2 * Pow2(n - 1)
  }

  /** The bitwise or of two numbers. */
  function Or(a: nat, b: nat): nat {
    if a == 0 then b else if b == 0 then a
    else (if a % 2 == 1 || b % 2 == 1 then 1 else 0) + 2 * Or(a / 2, b / 2)
  }

  lemma {:induction false} OrBelow(a: nat, b: nat, n: nat)
    requires a < Pow2(n) && b < Pow2(n)
    ensures Or(a, b) < Pow2(n)
  {
    if a != 0 && b != 0 {
      OrBelow(a / 2, b / 2, n - 1);
    }
  }

  /** Numbers without a common bit: or is sum. */
  lemma {:induction false} OrIsSum(a: nat, b: nat, n: nat)
    requires a < Pow2(n)
    ensures Or(a, b * Pow2(n)) == a + b * Pow2(n)
  {
    if a != 0 && b != 0 {
      var c := b * Pow2(n - 1);
      assert b * Pow2(n) == 2 * c by {
        assert Pow2(n) == 2 * Pow2(n - 1);
        assert b * (2 * Pow2(n - 1)) == 2 * (b * Pow2(n - 1));
      }
      assert (2 * c) / 2 == c;
      OrIsSum(a / 2, b, n - 1);
    }
  }

  /** x >> n */
  function ShiftRight(x: nat, n: nat): (r: nat)
    ensures r <= x
  {
    if n == 0 then x else ShiftRight(x / 2, n - 1)
  }

  /** x << n, stored in an unsigned char */
  function ShiftLeft(x: byte, n: nat): byte {
    if n == 0 then x else (2 * ShiftLeft(x, n - 1)) % 256
  }

  /** from[0] shifted right, with the low bits of from[1] above it: what one step writes. */
  function Octet(from: seq<byte>, shifts: nat): (o: byte)
    requires from != [] && shifts < 7
  {
    if |from| == 1 then ShiftRight(from[0], shifts) else Merge(from[0], from[1], shifts)
  }

  function Merge(a: byte, b: byte, shifts: nat): byte
    requires shifts < 7
  {
    assert Pow2(8) == 256;
    OrBelow(ShiftRight(a, shifts), ShiftLeft(b, 7 - shifts), 8);
    Or(ShiftRight(a, shifts), ShiftLeft(b, 7 - shifts))
  }

  lemma QuotientBelow(x: nat, q: nat, bound: nat)
    requires q > 0 && x < bound * q
    ensures x / q < bound
  {
    var h := x / q;
    assert x == q * h + x % q;
    if h >= bound {
      ProductGrows(bound, h, q);
    }
  }

  lemma ProductGrows(a: nat, b: nat, q: nat)
    requires a <= b
    ensures a * q <= b * q
  {
  }

  /** The octets written for the characters from, when shifts bits of the first one are written already. */
  function Packed(from: seq<byte>, shifts: nat): seq<byte>
    requires shifts <= 7
    decreases |from|
  {
    if from == [] then []
    else if shifts == 7 then Packed(from[1..], 0)
    else [Octet(from, shifts)] + Packed(from[1..], shifts + 1)
  }

  /** The number of octets for n characters, all but one in eight. */
  function PackedSize(n: nat): nat {
    n - n / 8
  }

  lemma {:induction false} PackedLength(from: seq<byte>, shifts: nat)
    requires shifts <= 7
    ensures |Packed(from, shifts)| == |from| - (|from| + shifts) / 8
    decreases |from|
  {
    if from != [] {
      PackedLength(from[1..], if shifts == 7 then 0 else shifts + 1);
    }
  }

  /** ceil(7 n / 8) */
  lemma PackedSizeIsCeiling(n: nat)
    ensures PackedSize(n) == (7 * n + 7) / 8
  {
  }

  /** memset(ret, 0, retSize) */
  method Clear(ret: array<byte>)
    modifies ret
    ensures forall k | 0 <= k < ret.Length :: ret[k] == 0
  {
    for k := 0 to ret.Length
      invariant forall j | 0 <= j < k :: ret[j] == 0
    {
      ret[k] := 0;
    }
  }

  /** The low bits of the current character, with the low bits of the next one to their left. */
  method StepOctet(from: seq<byte>, i: nat, shifts: nat) returns (tmp: byte)
    requires i < |from| && shifts < 7
    ensures tmp == Octet(from[i..], shifts)
  {
    tmp := ShiftRight(from[i], shifts);
    if i < |from| - 1 {
      tmp := Merge(from[i], from[i + 1], shifts);
    }
  }

  /**
   * gsm7_encode: -1 exactly when the characters do not fit; either way ret holds as much of the packed form as fits,
   * then zeros.
   */
  method Gsm7Encode(from: seq<byte>, ret: array<byte>) returns (count: int)
    modifies ret
    ensures |Packed(from, 0)| == PackedSize(|from|)
    ensures count == if ret.Length < PackedSize(|from|) then -1 else PackedSize(|from|)
    ensures forall k | 0 <= k < ret.Length ::
              ret[k] == if k < PackedSize(|from|) then Packed(from, 0)[k] else 0
  {
    PackedLength(from, 0);
    Clear(ret);
    var i, shifts := 0, 0;
    count := 0;
    while i < |from|
      invariant 0 <= i <= |from| && 0 <= shifts <= 7 && 0 <= count <= ret.Length
      invariant Packed(from, 0) == ret[..count] + Packed(from[i..], shifts)
      invariant forall k | count <= k < ret.Length :: ret[k] == 0
    {
      assert from[i..][1..] == from[i + 1..];
      if shifts == 7 {
        shifts := 0;
      } else {
        if count == ret.Length {
          count := -1;
          break;
        }
        var tmp := StepOctet(from, i, shifts);
        ghost var before, more := ret[..count], Packed(from[i + 1..], shifts + 1);
        ret[count] := tmp;
        assert ret[..count + 1] == before + [tmp];
        assert before + ([tmp] + more) == before + [tmp] + more;
        count := count + 1;
        shifts := shifts + 1;
      }
      i := i + 1;
    }
  }

  /** The number with the given little-endian digits. */
  function Value(base: nat, digits: seq<nat>): nat {
    if digits == [] then 0 else digits[0] + base * Value(base, digits[1..])
  }

  /** What is left of the number when the low bits of its first digit are gone. */
  function Remaining(from: seq<byte>, shifts: nat): nat
    requires shifts <= 7
  {
    if from == [] then 0 else ShiftRight(from[0], shifts) + Pow2(7 - shifts) * Value(128, from[1..])
  }

  predicate SevenBit(from: seq<byte>) {
    forall c | c in from :: c < 128
  }

  lemma Powers()
    ensures Pow2(0) == 1 && Pow2(1) == 2 && Pow2(2) == 4 && Pow2(3) == 8 && Pow2(4) == 16
    ensures Pow2(5) == 32 && Pow2(6) == 64 && Pow2(7) == 128
  {
  }

  lemma PowerProducts(shifts: nat)
    requires shifts < 7
    ensures Pow2(7 - shifts) * Pow2(shifts + 1) == 256
    ensures Pow2(7 - shifts) * 128 == 256 * Pow2(6 - shifts)
    ensures Pow2(7 - shifts) * Pow2(shifts) == 128
  {
    Powers();
  }

  lemma {:induction false} ShiftRightDivides(x: nat, n: nat)
    ensures ShiftRight(x, n) == x / Pow2(n)
  {
    if n > 0 {
      ShiftRightDivides(x / 2, n - 1);
      DivideTwice(x, Pow2(n - 1));
    }
  }

  lemma DivideTwice(x: nat, q: nat)
    requires q > 0
    ensures (x / 2) / q == x / (2 * q)
  {
    var h, r := (x / 2) / q, (x / 2) % q;
    assert x / 2 == q * h + r;
    assert x == (2 * q) * h + (2 * r + x % 2) by {
      assert 2 * (q * h) == (2 * q) * h;
    }
    QuotientOf(x, 2 * q, h, 2 * r + x % 2);
  }

  lemma QuotientOf(x: nat, m: nat, h: nat, r: nat)
    requires r < m && x == m * h + r
    ensures x / m == h && x % m == r
  {
    var g, s := x / m, x % m;
    assert x == m * g + s;
    assert (g + 1) * m == g * m + m && (h + 1) * m == h * m + m;
    if g < h {
      ProductGrows(g + 1, h, m);
    } else if h < g {
      ProductGrows(h + 1, g, m);
    }
  }

  /** Shifting an octet left drops its high bits. */
  lemma {:induction false} ShiftLeftMultiplies(b: byte, n: nat)
    ensures ShiftLeft(b, n) == (b * Pow2(n)) % 256
  {
    if n > 0 {
      ShiftLeftMultiplies(b, n - 1);
      DoubledProduct(b, Pow2(n - 1));
      DoubledModulo(b * Pow2(n - 1));
    }
  }

  lemma DoubledProduct(b: nat, q: nat)
    ensures b * (2 * q) == 2 * (b * q)
  {
  }

  lemma DoubledModulo(p: nat)
    ensures (2 * (p % 256)) % 256 == (2 * p) % 256
  {
    var h, r := p / 256, p % 256;
    var carry := if r < 128 then 0 else 1;
    QuotientOf(2 * r, 256, carry, 2 * r - 256 * carry);
    QuotientOf(2 * p, 256, 2 * h + carry, 2 * r - 256 * carry);
  }

  lemma ProductSplit(q: nat, h: nat, r: nat, p: nat)
    ensures (q * h + r) * p == (p * q) * h + r * p
  {
    assert (q * h + r) * p == (q * h) * p + r * p;
    assert (q * h) * p == (p * q) * h;
  }

  lemma ProductBelow(r: nat, q: nat, p: nat)
    requires r < q && p > 0
    ensures r * p < q * p
  {
    ProductGrows(r + 1, q, p);
    assert (r + 1) * p == r * p + p;
  }

  lemma ProductModulo(b: nat, p: nat, q: nat)
    requires p > 0 && q > 0 && p * q == 256
    ensures (b * p) % 256 == (b % q) * p
  {
    var h, r := b / q, b % q;
    Divided(b, q);
    ProductSplit(q, h, r, p);
    ProductBelow(r, q, p);
    QuotientOf(b * p, 256, h, r * p);
  }

  lemma RightPart(a: byte, shifts: nat)
    requires a < 128 && shifts < 7
    ensures ShiftRight(a, shifts) < Pow2(7 - shifts)
  {
    PowerProducts(shifts);
    ShiftRightDivides(a, shifts);
    QuotientBelow(a, Pow2(shifts), Pow2(7 - shifts));
  }

  lemma LeftPart(b: byte, shifts: nat)
    requires shifts < 7
    ensures ShiftLeft(b, 7 - shifts) == (b % Pow2(shifts + 1)) * Pow2(7 - shifts)
  {
    PowerProducts(shifts);
    ShiftLeftMultiplies(b, 7 - shifts);
    ProductModulo(b, Pow2(7 - shifts), Pow2(shifts + 1));
  }

  /** The low shifts + 1 bits of a character move above the bits that are left of the one before. */
  lemma MergeIsSum(a: byte, b: byte, shifts: nat)
    requires a < 128 && shifts < 7
    ensures Merge(a, b, shifts) == ShiftRight(a, shifts) + (b % Pow2(shifts + 1)) * Pow2(7 - shifts)
  {
    RightPart(a, shifts);
    LeftPart(b, shifts);
    OrIsSum(ShiftRight(a, shifts), b % Pow2(shifts + 1), 7 - shifts);
  }

  lemma {:induction false} RemainingIsValue(from: seq<byte>, shifts: nat)
    requires SevenBit(from) && shifts <= 7
    ensures Value(256, Packed(from, shifts)) == Remaining(from, shifts)
    decreases |from|
  {
    if from != [] {
      assert SevenBit(from[1..]) by { assert forall c | c in from[1..] :: c in from; }
      if shifts == 7 {
        RemainingIsValue(from[1..], 0);
        SkippedStep(from);
      } else {
        RemainingIsValue(from[1..], shifts + 1);
        assert Packed(from, shifts)[1..] == Packed(from[1..], shifts + 1);
        WrittenStep(from, shifts);
      }
    }
  }

  /** Every eighth character has been written when its turn comes. */
  lemma SkippedStep(from: seq<byte>)
    requires from != [] && SevenBit(from)
    ensures Remaining(from, 7) == Remaining(from[1..], 0)
  {
    assert from[0] in from;
    assert ShiftRight(from[0], 7) == 0 by {
      Powers();
      ShiftRightDivides(from[0], 7);
    }
    assert Pow2(0) == 1;
    assert Pow2(7) == 128 by { Powers(); }
  }

  lemma WrittenStep(from: seq<byte>, shifts: nat)
    requires from != [] && SevenBit(from) && shifts < 7
    ensures Remaining(from, shifts) == Octet(from, shifts) + 256 * Remaining(from[1..], shifts + 1)
  {
    assert from[0] in from;
    if |from| > 1 {
      var v := Value(128, from[1..][1..]);
      MergeIsSum(from[0], from[1], shifts);
      ShiftRightDivides(from[1], shifts + 1);
      Carry(ShiftRight(from[0], shifts), from[1], v, shifts);
      assert Value(128, from[1..]) == from[1] + 128 * v;
    } else {
      assert from[1..] == [];
    }
  }

  /** Bits of b that do not fit the octet are carried into the next one. */
  lemma Carry(low: nat, b: nat, v: nat, shifts: nat)
    requires shifts < 7
    ensures low + Pow2(7 - shifts) * (b + 128 * v)
            == low + (b % Pow2(shifts + 1)) * Pow2(7 - shifts) + 256 * (b / Pow2(shifts + 1) + Pow2(6 - shifts) * v)
  {
    PowerProducts(shifts);
    var q := Pow2(shifts + 1);
    Divided(b, q);
    SplitProduct(Pow2(7 - shifts), q, Pow2(6 - shifts), b / q, b % q, v);
  }

  lemma Divided(b: nat, q: nat)
    requires q > 0
    ensures b == q * (b / q) + b % q
  {
  }

  lemma SplitProduct(p: nat, q: nat, r: nat, high: nat, rest: nat, v: nat)
    requires p * q == 256 && p * 128 == 256 * r
    ensures p * ((q * high + rest) + 128 * v) == rest * p + 256 * (high + r * v)
  {
    assert p * ((q * high + rest) + 128 * v) == p * (q * high) + p * rest + p * (128 * v);
    assert p * (q * high) == (p * q) * high;
    assert p * (128 * v) == (p * 128) * v;
    assert 256 * (r * v) == (256 * r) * v;
  }

  /** The packed octets are the same number as the characters: base 256 instead of base 128. */
  lemma PackingIsBaseConversion(from: seq<byte>)
    requires SevenBit(from)
    ensures Value(256, Packed(from, 0)) == Value(128, from)
  {
    Powers();
    RemainingIsValue(from, 0);
  }

  /** The first n base-128 digits of a number, lowest first. */
  function Septets(v: nat, n: nat): seq<nat> {
    if n == 0 then [] else [v % 128] + Septets(v / 128, n - 1)
  }

  lemma {:induction false} SeptetsOfValue(digits: seq<byte>)
    requires SevenBit(digits)
    ensures Septets(Value(128, digits), |digits|) == digits
  {
    if digits != [] {
      assert digits[0] in digits && forall d | d in digits[1..] :: d in digits;
      SeptetsOfValue(digits[1..]);
    }
  }

  /** Nothing is lost: the characters are the base-128 digits of the packed number. */
  lemma PackingIsInjective(from: seq<byte>, other: seq<byte>)
    requires SevenBit(from) && SevenBit(other) && |from| == |other|
    ensures Septets(Value(256, Packed(from, 0)), |from|) == from
    ensures Packed(from, 0) == Packed(other, 0) ==> from == other
  {
    PackingIsBaseConversion(from);
    PackingIsBaseConversion(other);
    SeptetsOfValue(from);
    SeptetsOfValue(other);
  }
}
