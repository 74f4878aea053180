/** Text primitives of the JavaScript runtime that several components share:
    white space and `trim`, decimal numerals, and the conversion of a decimal
    numeral to a double. */
module Text {
  datatype Option<+T> = None | Some(value: T)

  // ---------- white space ----------

  /** White space and line terminators: the characters `trim` removes and `\s` matches. */
  predicate IsSpace(c: char) {
    var u := c as int;
    || 9 <= u <= 13 || u == 0x20 || u == 0xA0 || u == 0x1680
    || 0x2000 <= u <= 0x200A || u == 0x2028 || u == 0x2029
    || u == 0x202F || u == 0x205F || u == 0x3000 || u == 0xFEFF
  }

  /** The 25 characters of sections 12.2 and 12.3 of ECMA-262. */
  lemma SpaceIff(c: char)
    ensures IsSpace(c) <==>
            c as int in {0x09, 0x0A, 0x0B, 0x0C, 0x0D, 0x20, 0xA0, 0x1680, 0x2000, 0x2001, 0x2002, 0x2003, 0x2004,
                         0x2005, 0x2006, 0x2007, 0x2008, 0x2009, 0x200A, 0x2028, 0x2029, 0x202F, 0x205F, 0x3000,
                         0xFEFF}
  {
  }

  predicate AllSpace(s: string) {
    forall i :: 0 <= i < |s| ==> IsSpace(s[i])
  }

  predicate IsTrimmed(s: string) {
    s == "" || (!IsSpace(s[0]) && !IsSpace(s[|s| - 1]))
  }

  function TrimStart(s: string): string {
    if s != "" && IsSpace(s[0]) then TrimStart(s[1..]) else s
  }

  function TrimEnd(s: string): string {
    if s != "" && IsSpace(s[|s| - 1]) then TrimEnd(s[..|s| - 1]) else s
  }

  function Trim(s: string): string {
    TrimEnd(TrimStart(s))
  }

  lemma {:induction false} TrimStartSplits(s: string) returns (a: string)
    ensures AllSpace(a) && s == a + TrimStart(s)
    ensures TrimStart(s) == "" || !IsSpace(TrimStart(s)[0])
  {
    if s != "" && IsSpace(s[0]) {
      var b := TrimStartSplits(s[1..]);
      a := [s[0]] + b;
    } else {
      a := "";
    }
  }

  lemma {:induction false} TrimEndSplits(s: string) returns (b: string)
    ensures AllSpace(b) && s == TrimEnd(s) + b
    ensures TrimEnd(s) == "" || !IsSpace(TrimEnd(s)[|TrimEnd(s)| - 1])
  {
    if s != "" && IsSpace(s[|s| - 1]) {
      var c := TrimEndSplits(s[..|s| - 1]);
      b := c + [s[|s| - 1]];
    } else {
      b := "";
    }
  }

  /** `trim` removes white space from both ends and nothing else. */
  lemma TrimSplits(s: string) returns (a: string, b: string)
    ensures s == a + Trim(s) + b && AllSpace(a) && AllSpace(b) && IsTrimmed(Trim(s))
  {
    a := TrimStartSplits(s);
    b := TrimEndSplits(TrimStart(s));
    if Trim(s) != "" {
      assert Trim(s)[0] == TrimStart(s)[0];
    }
  }

  lemma TrimFixed(s: string)
    requires IsTrimmed(s)
    ensures Trim(s) == s
  {
  }

  lemma TrimIdempotent(s: string)
    ensures IsTrimmed(Trim(s)) && Trim(Trim(s)) == Trim(s)
    ensures |Trim(s)| <= |s|
    ensures |Trim(s)| == |s| ==> Trim(s) == s
  {
    var a, b := TrimSplits(s);
    TrimFixed(Trim(s));
  }

  // ---------- decimal numerals ----------

  predicate IsDigit(c: char) {
    '0' <= c <= '9'
  }

  predicate AllDigits(s: string) {
    forall i :: 0 <= i < |s| ==> IsDigit(s[i])
  }

  /** A non-empty digit string with no superfluous leading zero. */
  predicate IsCanonical(s: string) {
    s != "" && AllDigits(s) && (s[0] != '0' || |s| == 1)
  }

  function DigitChar(d: nat): (c: char)
    requires d < 10
    ensures IsDigit(c)
  {
    '0' + d as char
  }

  function DigitValue(c: char): (d: nat)
    requires IsDigit(c)
    ensures d < 10
  {
    (c as int) - ('0' as int)
  }

  /** The integer a digit string denotes. */
  function Val(s: string): nat
    requires AllDigits(s)
  {
    if s == "" then 0 else 10 * Val(s[..|s| - 1]) + DigitValue(s[|s| - 1])
  }

  /** Base ten: a further digit counts behind ten times what comes before. */
  lemma ValPush(s: string, c: char)
    requires AllDigits(s) && '0' <= c <= '9'
    ensures AllDigits(s + [c]) && Val(s + [c]) == 10 * Val(s) + (c as int - 48)
  {
    assert (s + [c])[..|s|] == s;
  }

  /** The decimal numeral of n, which is `String(n)` up to 2^53; from there on the runtime prints the
      fewest digits that read back to the double. */
  function Dec(n: nat): (s: string)
    ensures AllDigits(s) && s != ""
  {
    if n < 10 then [DigitChar(n)] else Dec(n / 10) + [DigitChar(n % 10)]
  }

  /** `String(n).padStart(2, "0")`. */
  function Pad2(n: nat): (s: string)
    ensures AllDigits(s) && |s| >= 2
  {
    if |Dec(n)| < 2 then "0" + Dec(n) else Dec(n)
  }

  lemma {:induction false} DecCanonical(n: nat)
    ensures IsCanonical(Dec(n))
    ensures Dec(n)[0] == '0' <==> n == 0
  {
    if n < 10 {
    } else {
      DecCanonical(n / 10);
    }
  }

  lemma {:induction false} ValDec(n: nat)
    ensures Val(Dec(n)) == n
  {
    if n >= 10 {
      ValDec(n / 10);
      assert Dec(n)[..|Dec(n)| - 1] == Dec(n / 10);
    } else {
      assert [DigitChar(n)][..0] == "";
    }
  }

  lemma {:induction false} ValPositive(s: string)
    requires IsCanonical(s) && s[0] != '0'
    ensures Val(s) >= 1
  {
    if |s| <= 1 {
    } else {
      assert s[..|s| - 1][0] == s[0];
      ValPositive(s[..|s| - 1]);
    }
  }

  /** Printing what a canonical numeral denotes gives the numeral back. */
  lemma {:induction false} DecVal(s: string)
    requires IsCanonical(s)
    ensures Dec(Val(s)) == s
  {
    if |s| == 1 {
      assert s[..0] == "";
      assert s == [DigitChar(Val(s))];
    } else {
      var t := s[..|s| - 1];
      assert t[0] == s[0];
      ValPositive(t);
      DecVal(t);
      assert Val(s) / 10 == Val(t) && Val(s) % 10 == DigitValue(s[|s| - 1]);
      assert s == t + [s[|s| - 1]];
    }
  }

  function Pow10(k: nat): nat {
    if k == 0 then 1 else 10 * Pow10(k - 1)
  }

  lemma ShiftDigit(v: nat, p: nat, w: nat, d: nat)
    ensures 10 * (v * p + w) + d == v * (10 * p) + (10 * w + d)
  {
  }

  lemma {:induction false} ValConcat(a: string, b: string)
    requires AllDigits(a) && AllDigits(b)
    ensures AllDigits(a + b)
    ensures Val(a + b) == Val(a) * Pow10(|b|) + Val(b)
  {
    if b == "" {
      assert a + b == a;
    } else {
      var b' := b[..|b| - 1];
      ValConcat(a, b');
      assert (a + b)[..|a + b| - 1] == a + b' && (a + b)[|a + b| - 1] == b[|b| - 1];
      ShiftDigit(Val(a), Pow10(|b'|), Val(b'), DigitValue(b[|b| - 1]));
    }
  }

  lemma {:induction false} ValBound(s: string)
    requires AllDigits(s)
    ensures Val(s) < Pow10(|s|)
  {
    if s == "" {
    } else {
      ValBound(s[..|s| - 1]);
    }
  }

  lemma DecLength(n: nat)
    ensures |Dec(n)| == 1 <==> n < 10
    ensures |Dec(n)| <= 2 <==> n < 100
  {
  }

  lemma Pad2Meaning(n: nat)
    requires n < 100
    ensures |Pad2(n)| == 2 && Val(Pad2(n)) == n
  {
    DecLength(n);
    ValDec(n);
    if n < 10 {
      ValConcat("0", Dec(n));
      assert "0"[..0] == "";
    }
  }

  // ---------- doubles ----------

  /** 2^53: every smaller non-negative integer is a double. */
  const EXACT_LIMIT: nat := 0x20_0000_0000_0000

  /** n / 2^k without its fraction. */
  function Halved(n: nat, k: nat): nat {
    if k == 0 then n else Halved(n / 2, k - 1)
  }

  /** n is at least 2^1024 - 2^970, and so rounded to infinity: its part above 2^970 has more than 54
      bits, or 54 that are all one. */
  predicate Overflows(n: nat) {
    Halved(n, 970) >= 0x3F_FFFF_FFFF_FFFF
  }

  /** A non-negative integral double: finite, or positive infinity. */
  datatype Double = Finite(value: nat) | Infinity {
    predicate AtLeast(n: nat) {
      match this
      case Finite(v) => v >= n
      case Infinity => true
    }
  }

  /** The distance of neighbouring doubles around n. */
  function Spacing(n: nat): (u: nat)
    ensures u >= 1
    decreases n
  {
    if n < EXACT_LIMIT then 1 else 2 * Spacing(n / 2)
  }

  /** The integer has at most 53 significant bits: below 2^53, or even with such a half. */
  predicate Is53Bit(n: nat)
    decreases n
  {
    n < EXACT_LIMIT || (n % 2 == 0 && Is53Bit(n / 2))
  }

  /** n / unit to the nearest integer, ties to even. */
  function RoundQuotient(n: nat, unit: nat): nat
    requires unit >= 1
  {
    var q, r := n / unit, n % unit;
    if 2 * r > unit || (2 * r == unit && q % 2 == 1) then q + 1 else q
  }

  /** The double nearest to the integer n, as `Number` and `parseInt` produce it. */
  function ToDouble(n: nat): Double {
    if Overflows(n) then Infinity
    else Finite(RoundQuotient(n, Spacing(n)) * Spacing(n))
  }

  lemma {:induction false} SpacingBound(n: nat)
    requires n >= EXACT_LIMIT
    ensures EXACT_LIMIT / 2 * Spacing(n) <= n
  {
    if n / 2 < EXACT_LIMIT {
    } else {
      SpacingBound(n / 2);
    }
  }

  function Pow2(k: nat): nat {
    if k == 0 then 1 else 2 * Pow2(k - 1)
  }

  lemma {:induction false} HalvedIs(n: nat, k: nat, m: nat)
    ensures Halved(n, k) >= m <==> n >= m * Pow2(k)
  {
    if k == 0 {
    } else {
      HalvedIs(n / 2, k - 1, m);
      assert m * (2 * Pow2(k - 1)) == 2 * (m * Pow2(k - 1));
    }
  }

  /** The least integer that is rounded to infinity is (2^54 - 1) * 2^970. */
  lemma OverflowsIff(n: nat, k: nat)
    requires k == 970
    ensures Overflows(n) <==> n >= 18014398509481983 * Pow2(k)
  {
    HalvedIs(n, k, 18014398509481983);
  }

  lemma {:induction false} HalvedAtMost(n: nat, k: nat)
    ensures Halved(n, k) <= n
  {
    if k > 0 {
      HalvedAtMost(n / 2, k - 1);
    }
  }

  lemma SmallIsFinite(n: nat)
    requires n < 2 * EXACT_LIMIT - 1
    ensures !Overflows(n)
  {
    HalvedAtMost(n, 970);
  }

  /** Integers below 2^53 are converted exactly. */
  lemma ToDoubleExact(n: nat)
    requires n < EXACT_LIMIT
    ensures ToDouble(n) == Finite(n)
  {
    SmallIsFinite(n);
  }

  lemma MulMonotone(a: nat, b: nat, unit: nat)
    requires a <= b
    ensures a * unit <= b * unit
  {
  }

  lemma NextMultiple(a: nat, b: nat, unit: nat)
    ensures a < b ==> a * unit + unit <= b * unit
  {
    if a < b {
      MulMonotone(a + 1, b, unit);
      assert (a + 1) * unit == a * unit + unit;
    }
  }

  lemma QuotientOfMultiple(k: nat, unit: nat)
    requires unit >= 1
    ensures k * unit / unit == k && k * unit % unit == 0
  {
    var q, r := k * unit / unit, k * unit % unit;
    assert k * unit == q * unit + r;
    NextMultiple(k, q, unit);
    NextMultiple(q, k, unit);
  }

  lemma {:induction false} MultipleIs53Bit(n: nat, k: nat)
    requires n == k * Spacing(n)
    ensures Is53Bit(n)
    decreases n
  {
    if n < EXACT_LIMIT {
    } else {
      var u := Spacing(n / 2);
      assert k * (2 * u) == 2 * (k * u);
      MultipleIs53Bit(n / 2, k);
    }
  }

  lemma {:induction false} MultipleOfSpacing(n: nat) returns (k: nat)
    requires Is53Bit(n)
    ensures n == k * Spacing(n)
    decreases n
  {
    if n < EXACT_LIMIT {
      k := n;
    } else {
      k := MultipleOfSpacing(n / 2);
      assert k * (2 * Spacing(n / 2)) == 2 * (k * Spacing(n / 2));
    }
  }

  /** Rounding leaves an integer alone exactly when it has at most 53 significant bits. */
  lemma RoundedIff(n: nat)
    ensures RoundQuotient(n, Spacing(n)) * Spacing(n) == n <==> Is53Bit(n)
  {
    if Is53Bit(n) {
      var k := MultipleOfSpacing(n);
      QuotientOfMultiple(k, Spacing(n));
    } else if RoundQuotient(n, Spacing(n)) * Spacing(n) == n {
      MultipleIs53Bit(n, RoundQuotient(n, Spacing(n)));
    }
  }

  function Apart(a: int, b: int): nat {
    if a <= b then b - a else a - b
  }

  lemma Divides(n: nat, unit: nat)
    requires unit >= 1
    ensures n == n / unit * unit + n % unit
  {
  }

  lemma MultipleApart(n: nat, unit: nat, q: nat, r: nat, k: nat)
    requires n == q * unit + r && r < unit
    ensures k == q ==> Apart(n, k * unit) == r
    ensures k == q + 1 ==> Apart(n, k * unit) == unit - r
    ensures k < q ==> Apart(n, k * unit) >= unit + r
    ensures k > q + 1 ==> Apart(n, k * unit) > unit
  {
    assert (q + 1) * unit == q * unit + unit;
    NextMultiple(k, q, unit);
    NextMultiple(q + 1, k, unit);
  }

  /** No multiple of the unit is nearer to n, and of two that are equally near it is the even one. */
  lemma NearestMultiple(n: nat, unit: nat, k: nat)
    requires unit >= 1
    ensures var v := RoundQuotient(n, unit);
            && Apart(n, v * unit) <= Apart(n, k * unit)
            && (Apart(n, v * unit) == Apart(n, k * unit) ==> v == k || v % 2 == 0)
  {
    Divides(n, unit);
    MultipleApart(n, unit, n / unit, n % unit, k);
    MultipleApart(n, unit, n / unit, n % unit, RoundQuotient(n, unit));
  }

  predicate IsPowerOfTwo(n: nat) {
    n == 1 || (n >= 2 && n % 2 == 0 && IsPowerOfTwo(n / 2))
  }

  /** The unit is the power of two that leaves 53 bits, and 1 for what has no more. */
  lemma {:induction false} SpacingMeaning(n: nat)
    ensures IsPowerOfTwo(Spacing(n)) && n < 9007199254740992 * Spacing(n)
    ensures Spacing(n) == 1 || 4503599627370496 * Spacing(n) <= n
    decreases n
  {
    if n < EXACT_LIMIT {
    } else {
      SpacingMeaning(n / 2);
    }
  }

  lemma QuotientAtLeast(n: nat, unit: nat, q: nat)
    requires unit >= 1 && q * unit <= n
    ensures q <= n / unit
  {
    var k := n / unit;
    assert n < k * unit + unit;
    assert (k + 1) * unit == k * unit + unit;
    assert k + 1 <= q ==> (k + 1) * unit <= q * unit by {
      if k + 1 <= q { MulMonotone(k + 1, q, unit); }
    }
  }

  /** Rounding never moves an integer across a bound of at most 2^52. */
  lemma ToDoubleKeepsOrder(n: nat, c: nat)
    requires c <= EXACT_LIMIT / 2
    ensures ToDouble(n).AtLeast(c) <==> n >= c
  {
    if n < EXACT_LIMIT {
      ToDoubleExact(n);
    } else {
      var u := Spacing(n);
      SpacingBound(n);
      QuotientAtLeast(n, u, EXACT_LIMIT / 2);
      MulMonotone(EXACT_LIMIT / 2, RoundQuotient(n, u), u);
      MulMonotone(1, u, EXACT_LIMIT / 2);
    }
  }

  // ---------- names that objects inherit ----------

  /** A lookup of this name finds Object.prototype itself, and an assignment of a number to it is
      ignored. */
  predicate IsProto(name: string) {
    name == "__proto__"
  }

  /** The other names every object inherits from Object.prototype. */
  const OBJECT_PROTOTYPE: set<string> := {
    "constructor", "hasOwnProperty", "isPrototypeOf", "propertyIsEnumerable", "toLocaleString", "toString",
    "valueOf", "__defineGetter__", "__defineSetter__", "__lookupGetter__", "__lookupSetter__"
  }

  /** A lookup of the name in an object that has no property of its own finds an inherited one. */
  predicate IsInherited(name: string) {
    IsProto(name) || name in OBJECT_PROTOTYPE
  }

  /** Object.prototype as section 20.1.3 and annex B.2.2 of ECMA-262 have it. */
  lemma InheritedIff(name: string)
    ensures IsInherited(name) <==>
            name in {"__proto__", "__defineGetter__", "__defineSetter__", "__lookupGetter__", "__lookupSetter__",
                     "constructor", "hasOwnProperty", "isPrototypeOf", "propertyIsEnumerable", "toLocaleString",
                     "toString", "valueOf"}
  {
  }

  lemma InheritedIsTrimmed(name: string)
    requires IsInherited(name)
    ensures name != "" && IsTrimmed(name)
  {
  }

  lemma InheritedIsNotBlank(name: string)
    ensures IsInherited(name) ==> Trim(name) != ""
  {
    if IsInherited(name) {
      InheritedIsTrimmed(name);
      TrimFixed(name);
    }
  }
}
