/** The setup code of a pairing payload (extensions/device-pair/index.ts:393-397): base64 after
    section 4 of RFC 4648, turned into unpadded base64url (section 5). */
module SetupCode {
  import opened Text

  type Byte = b: int | 0 <= b < 256

  type Sextet = v: int | 0 <= v < 64

  // ---------- encoding ----------

  /** The alphabet of section 4 of RFC 4648. */
  function Symbol(v: Sextet): char {
    if v < 26 then 'A' + v as char
    else if v < 52 then 'a' + (v - 26) as char
    else if v < 62 then '0' + (v - 52) as char
    else if v == 62 then '+'
    else '/'
  }

  function Symbols(vs: seq<Sextet>): (s: string)
    ensures |s| == |vs| && forall i :: 0 <= i < |s| ==> s[i] == Symbol(vs[i])
  {
    seq(|vs|, i requires 0 <= i < |vs| => Symbol(vs[i]))
  }

  /** The four sextets of three octets. */
  function Split(a: Byte, b: Byte, c: Byte): seq<Sextet> {
    var n := 65536 * a + 256 * b + c;
    [n / 262144, n / 4096 % 64, n / 64 % 64, n % 64]
  }

  /** `Buffer.from(…).toString("base64")`. */
  function Base64(bytes: seq<Byte>): string {
    if |bytes| == 0 then ""
    else if |bytes| == 1 then Symbols(Split(bytes[0], 0, 0)[..2]) + "=="
    else if |bytes| == 2 then Symbols(Split(bytes[0], bytes[1], 0)[..3]) + "="
    else Symbols(Split(bytes[0], bytes[1], bytes[2])) + Base64(bytes[3..])
  }

  /** `replace(/c/g, d)`. */
  function ReplaceAll(s: string, c: char, d: char): (r: string)
    ensures |r| == |s| && forall i :: 0 <= i < |s| ==> r[i] == if s[i] == c then d else s[i]
  {
    seq(|s|, i requires 0 <= i < |s| => if s[i] == c then d else s[i])
  }

  /** The symbols 62 and 63 made safe for URLs. */
  function UrlSafe(s: string): string {
    ReplaceAll(ReplaceAll(s, '+', '-'), '/', '_')
  }

  /** `replace(/=+$/g, "")`. */
  function StripPadding(s: string): string {
    if s != "" && s[|s| - 1] == '=' then StripPadding(s[..|s| - 1]) else s
  }

  /** encodeSetupCode, from the bytes of the JSON text. */
  function EncodeSetupCode(json: seq<Byte>): string {
    StripPadding(UrlSafe(Base64(json)))
  }

  // ---------- decoding ----------

  /** The value of a symbol in the URL-safe alphabet of section 5 of RFC 4648. */
  function UrlValue(c: char): Option<Sextet> {
    if 'A' <= c <= 'Z' then Some((c - 'A') as int)
    else if 'a' <= c <= 'z' then Some((c - 'a') as int + 26)
    else if '0' <= c <= '9' then Some((c - '0') as int + 52)
    else if c == '-' then Some(62)
    else if c == '_' then Some(63)
    else None
  }

  predicate IsUrlText(s: string) {
    forall i :: 0 <= i < |s| ==> UrlValue(s[i]).Some?
  }

  function UrlValues(s: string): (r: seq<Sextet>)
    requires IsUrlText(s)
    ensures |r| == |s| && forall i :: 0 <= i < |s| ==> UrlValue(s[i]) == Some(r[i])
  {
    seq(|s|, i requires 0 <= i < |s| => UrlValue(s[i]).value)
  }

  function Number(v0: int, v1: int, v2: int, v3: int): int {
    262144 * v0 + 4096 * v1 + 64 * v2 + v3
  }

  /** The octets of four sextets. */
  function Join(vs: seq<Sextet>): seq<Byte>
    requires |vs| == 4
  {
    var n := Number(vs[0], vs[1], vs[2], vs[3]);
    [n / 65536, n / 256 % 256, n % 256]
  }

  function Octets(vs: seq<Sextet>): Option<seq<Byte>> {
    if |vs| == 0 then Some([])
    else if |vs| == 1 then None
    else if |vs| == 2 then
      var o := Join(vs + [0, 0]);
      if o[1] == 0 then Some(o[..1]) else None
    else if |vs| == 3 then
      var o := Join(vs + [0]);
      if o[2] == 0 then Some(o[..2]) else None
    else
      match Octets(vs[4..])
      case None => None
      case Some(rest) => Some(Join(vs[..4]) + rest)
  }

  /** The decoder of section 5 of RFC 4648 without padding; it refuses other symbols, a lone last
      symbol and non-zero trailing bits (sections 3.3 and 3.5). */
  function Decode(code: string): Option<seq<Byte>> {
    if IsUrlText(code) then Octets(UrlValues(code)) else None
  }

  // ---------- sextets and octets ----------

  lemma AtLeastOnce(x: int, d: int)
    requires x >= 1 && d > 0
    ensures x * d >= d
  {
  }

  lemma DivMod(n: int, k: int, d: int, r: int)
    requires n == k * d + r && 0 <= r < d
    ensures n / d == k && n % d == r
  {
    var q := n / d;
    assert n == q * d + n % d;
    assert (q - k) * d == q * d - k * d && (k - q) * d == k * d - q * d;
    if q > k {
      AtLeastOnce(q - k, d);
    } else if q < k {
      AtLeastOnce(k - q, d);
    }
  }

  lemma SextetDigits(n: int, v0: int, v1: Sextet, v2: Sextet, v3: Sextet)
    requires n == Number(v0, v1, v2, v3)
    ensures n / 262144 == v0 && n / 4096 % 64 == v1 && n / 64 % 64 == v2 && n % 64 == v3
  {
    DivMod(n, v0, 262144, 4096 * v1 + 64 * v2 + v3);
    DivMod(n, 64 * v0 + v1, 4096, 64 * v2 + v3);
    DivMod(64 * v0 + v1, v0, 64, v1);
    DivMod(n, 4096 * v0 + 64 * v1 + v2, 64, v3);
    DivMod(4096 * v0 + 64 * v1 + v2, 64 * v0 + v1, 64, v2);
  }

  lemma OctetDigits(n: int, a: int, b: Byte, c: Byte)
    requires n == 65536 * a + 256 * b + c
    ensures n / 65536 == a && n / 256 % 256 == b && n % 256 == c
  {
  }

  lemma JoinSplitBits(a: Byte, b: Byte, c: Byte, a0: int, a1: int, b0: int, b1: int, c0: int, c1: int)
    requires a == 4 * a0 + a1 && b == 16 * b0 + b1 && c == 64 * c0 + c1
    requires 0 <= a1 < 4 && 0 <= b0 < 16 && 0 <= b1 < 16 && 0 <= c0 < 4 && 0 <= c1 < 64
    ensures Split(a, b, c) == [a0, 16 * a1 + b0, 4 * b1 + c0, c1]
    ensures Join(Split(a, b, c)) == [a, b, c]
    ensures b == 0 ==> b0 == b1 == 0
    ensures c == 0 ==> c0 == c1 == 0
  {
    var n := 65536 * a + 256 * b + c;
    SextetDigits(n, a0, 16 * a1 + b0, 4 * b1 + c0, c1);
    OctetDigits(n, a, b, c);
  }

  lemma JoinSplit(a: Byte, b: Byte, c: Byte)
    ensures Join(Split(a, b, c)) == [a, b, c]
    ensures b == 0 && c == 0 ==> Split(a, b, c)[2] == 0
    ensures c == 0 ==> Split(a, b, c)[3] == 0
  {
    var a0, b0, c0 := a / 4, b / 16, c / 64;
    JoinSplitBits(a, b, c, a0, a - 4 * a0, b0, b - 16 * b0, c0, c - 64 * c0);
  }

  lemma JoinBits(vs: seq<Sextet>, p: int, q: int, r: int, s: int)
    requires |vs| == 4 && vs[1] == 16 * p + q && vs[2] == 4 * r + s
    requires 0 <= p < 4 && 0 <= q < 16 && 0 <= r < 16 && 0 <= s < 4
    ensures var v0: int, v3: int := vs[0], vs[3];
            Join(vs)[0] == 4 * v0 + p && Join(vs)[1] == 16 * q + r && Join(vs)[2] == 64 * s + v3
  {
    var v0: int, v3: int := vs[0], vs[3];
    var n := Number(vs[0], vs[1], vs[2], vs[3]);
    OctetDigits(n, 4 * v0 + p, 16 * q + r, 64 * s + v3);
  }

  lemma SplitIs(a: Byte, b: Byte, c: Byte, vs: seq<Sextet>)
    requires |vs| == 4 && 65536 * a + 256 * b + c == Number(vs[0], vs[1], vs[2], vs[3])
    ensures Split(a, b, c) == vs
  {
    SextetDigits(65536 * a + 256 * b + c, vs[0], vs[1], vs[2], vs[3]);
  }

  lemma SplitJoinBits(vs: seq<Sextet>, p: int, q: int, r: int, s: int)
    requires |vs| == 4 && vs[1] == 16 * p + q && vs[2] == 4 * r + s
    requires 0 <= p < 4 && 0 <= q < 16 && 0 <= r < 16 && 0 <= s < 4
    ensures Split(Join(vs)[0], Join(vs)[1], Join(vs)[2]) == vs
  {
    JoinBits(vs, p, q, r, s);
    SplitIs(Join(vs)[0], Join(vs)[1], Join(vs)[2], vs);
  }

  lemma SplitJoin(vs: seq<Sextet>)
    requires |vs| == 4
    ensures Split(Join(vs)[0], Join(vs)[1], Join(vs)[2]) == vs
  {
    var v1: int, v2: int := vs[1], vs[2];
    SplitJoinBits(vs, v1 / 16, v1 - v1 / 16 * 16, v2 / 4, v2 - v2 / 4 * 4);
  }

  /** The sextets of a text, before they are written as symbols. */
  function Sextets(bytes: seq<Byte>): seq<Sextet> {
    if |bytes| == 0 then []
    else if |bytes| == 1 then Split(bytes[0], 0, 0)[..2]
    else if |bytes| == 2 then Split(bytes[0], bytes[1], 0)[..3]
    else Split(bytes[0], bytes[1], bytes[2]) + Sextets(bytes[3..])
  }

  lemma OctetsStep(vs: seq<Sextet>, rest: seq<Sextet>, bytes: seq<Byte>)
    requires |vs| == 4 && Octets(rest) == Some(bytes)
    ensures Octets(vs + rest) == Some(Join(vs) + bytes)
  {
  }

  lemma OctetsEnd(vs: seq<Sextet>, n: nat)
    requires |vs| == 4 && 2 <= n <= 3 && forall i :: n <= i < 4 ==> vs[i] == 0
    requires Join(vs)[n - 1] == 0
    ensures Octets(vs[..n]) == Some(Join(vs)[..n - 1])
  {
    assert vs == if n == 2 then vs[..n] + [0, 0] else vs[..n] + [0];
  }

  lemma {:induction false} OctetsOfSextets(bytes: seq<Byte>)
    ensures Octets(Sextets(bytes)) == Some(bytes)
  {
    if |bytes| == 0 {
    } else if |bytes| == 1 {
      JoinSplit(bytes[0], 0, 0);
      OctetsEnd(Split(bytes[0], 0, 0), 2);
      assert bytes == [bytes[0], 0, 0][..1];
    } else if |bytes| == 2 {
      JoinSplit(bytes[0], bytes[1], 0);
      OctetsEnd(Split(bytes[0], bytes[1], 0), 3);
      assert bytes == [bytes[0], bytes[1], 0][..2];
    } else {
      JoinSplit(bytes[0], bytes[1], bytes[2]);
      OctetsOfSextets(bytes[3..]);
      OctetsStep(Split(bytes[0], bytes[1], bytes[2]), Sextets(bytes[3..]), bytes[3..]);
      assert bytes == [bytes[0], bytes[1], bytes[2]] + bytes[3..];
    }
  }

  lemma SextetsStep(octets: seq<Byte>, rest: seq<Byte>)
    requires |octets| == 3
    ensures Sextets(octets + rest) == Split(octets[0], octets[1], octets[2]) + Sextets(rest)
  {
    assert (octets + rest)[3..] == rest;
  }

  lemma {:induction false} SextetsOfOctets(vs: seq<Sextet>)
    ensures Octets(vs).Some? ==> Sextets(Octets(vs).value) == vs
  {
    if |vs| == 2 {
      SplitJoin(vs + [0, 0]);
    } else if |vs| == 3 {
      SplitJoin(vs + [0]);
    } else if |vs| >= 4 {
      var four, rest := vs[..4], vs[4..];
      SextetsOfOctets(rest);
      if Octets(rest).Some? {
        SplitJoin(four);
        SextetsStep(Join(four), Octets(rest).value);
        assert vs == four + rest;
      }
    }
  }

  // ---------- symbols ----------

  /** What base64 appends: "==", "=" or nothing. */
  function Padding(n: nat): string {
    if n % 3 == 1 then "==" else if n % 3 == 2 then "=" else ""
  }

  lemma {:induction false} SextetCount(bytes: seq<Byte>)
    ensures |Sextets(bytes)| == (4 * |bytes| + 2) / 3
  {
    if |bytes| < 3 {
    } else {
      SextetCount(bytes[3..]);
    }
  }

  lemma SymbolsConcat(vs: seq<Sextet>, ws: seq<Sextet>)
    ensures Symbols(vs + ws) == Symbols(vs) + Symbols(ws)
  {
  }

  lemma PaddingPeriod(n: nat)
    requires n >= 3
    ensures Padding(n) == Padding(n - 3)
  {
  }

  lemma {:induction false} Base64Symbols(bytes: seq<Byte>)
    ensures Base64(bytes) == Symbols(Sextets(bytes)) + Padding(|bytes|)
  {
    if |bytes| < 3 {
    } else {
      var vs, rest := Split(bytes[0], bytes[1], bytes[2]), Sextets(bytes[3..]);
      Base64Symbols(bytes[3..]);
      PaddingPeriod(|bytes|);
      SymbolsConcat(vs, rest);
      assert Symbols(vs) + (Symbols(rest) + Padding(|bytes|)) == Symbols(vs) + Symbols(rest) + Padding(|bytes|);
    }
  }

  lemma UrlSafeSymbols(vs: seq<Sextet>)
    ensures IsUrlText(UrlSafe(Symbols(vs))) && UrlValues(UrlSafe(Symbols(vs))) == vs
  {
  }

  /** A text is the only one with its values. */
  lemma UrlValuesInjective(s: string, t: string)
    requires IsUrlText(s) && IsUrlText(t) && UrlValues(s) == UrlValues(t)
    ensures s == t
  {
  }

  lemma StripStep(s: string)
    ensures StripPadding(s + ['=']) == StripPadding(s)
  {
  }

  lemma StripPaddingExact(code: string, n: nat)
    requires IsUrlText(code)
    ensures StripPadding(code + Padding(n)) == code
  {
    assert code != "" ==> UrlValue(code[|code| - 1]).Some?;
    StripStep(code);
    StripStep(code + ['=']);
    assert code + "==" == code + ['='] + ['='];
    assert code + "" == code;
  }

  lemma UrlSafePadded(s: string, n: nat)
    ensures UrlSafe(s + Padding(n)) == UrlSafe(s) + Padding(n)
  {
  }

  lemma NoPaddingIn(code: string)
    requires IsUrlText(code)
    ensures '=' !in code
  {
  }

  /** The code is the symbols of the sextets; the characters stripped are exactly the padding. */
  lemma StripsOnlyPadding(json: seq<Byte>)
    ensures UrlSafe(Base64(json)) == EncodeSetupCode(json) + Padding(|json|)
    ensures EncodeSetupCode(json) == UrlSafe(Symbols(Sextets(json)))
    ensures '=' !in EncodeSetupCode(json)
  {
    var vs := Sextets(json);
    Base64Symbols(json);
    UrlSafeSymbols(vs);
    UrlSafePadded(Symbols(vs), |json|);
    StripPaddingExact(UrlSafe(Symbols(vs)), |json|);
    NoPaddingIn(UrlSafe(Symbols(vs)));
  }

  // ---------- the code, six bits a symbol ----------

  /** The URL-safe alphabet of section 5 of RFC 4648: letters, digits, "-" and "_". */
  function UrlSymbol(v: Sextet): char {
    if 0 <= v <= 25 then 'A' + v as char
    else if 26 <= v <= 51 then 'a' + (v - 26) as char
    else if 52 <= v <= 61 then '0' + (v - 52) as char
    else if v == 62 then '-'
    else '_'
  }

  function UrlSymbols(vs: seq<Sextet>): (s: string)
    ensures |s| == |vs| && forall i :: 0 <= i < |s| ==> s[i] == UrlSymbol(vs[i])
  {
    seq(|vs|, i requires 0 <= i < |vs| => UrlSymbol(vs[i]))
  }

  lemma SafeSymbols(vs: seq<Sextet>)
    ensures UrlSafe(Symbols(vs)) == UrlSymbols(vs)
  {
  }

  /** Six bits at a time, the first bits first. */
  lemma SplitBits(a: Byte, b: Byte, c: Byte)
    ensures Split(a, b, c) == [a / 4, a % 4 * 16 + b / 16, b % 16 * 4 + c / 64, c % 64]
  {
    JoinSplitBits(a, b, c, a / 4, a % 4, b / 16, b % 16, c / 64, c % 64);
  }

  lemma CodeIs(json: seq<Byte>)
    ensures EncodeSetupCode(json) == UrlSymbols(Sextets(json))
  {
    StripsOnlyPadding(json);
    SafeSymbols(Sextets(json));
  }

  lemma SymbolsOf(vs: seq<Sextet>, ws: seq<Sextet>)
    ensures UrlSymbols(vs + ws) == UrlSymbols(vs) + UrlSymbols(ws)
  {
  }

  lemma LastCode(json: seq<Byte>)
    ensures |json| == 1 ==> EncodeSetupCode(json) == UrlSymbols([json[0] / 4, json[0] % 4 * 16])
    ensures |json| == 2 ==>
              EncodeSetupCode(json) == UrlSymbols([json[0] / 4, json[0] % 4 * 16 + json[1] / 16, json[1] % 16 * 4])
  {
    CodeIs(json);
    if |json| == 1 {
      SplitBits(json[0], 0, 0);
    } else if |json| == 2 {
      SplitBits(json[0], json[1], 0);
    }
  }

  lemma NextCode(json: seq<Byte>, four: seq<Sextet>)
    requires |json| >= 3 && four == Split(json[0], json[1], json[2])
    ensures EncodeSetupCode(json) == UrlSymbols(four) + EncodeSetupCode(json[3..])
  {
    CodeIs(json);
    CodeIs(json[3..]);
    SymbolsOf(four, Sextets(json[3..]));
  }

  /** Three octets make four symbols, the first bits first.  One or two octets at the end are filled
      up with zero bits and make two or three. */
  lemma CodeOf(json: seq<Byte>)
    ensures json == [] ==> EncodeSetupCode(json) == ""
    ensures |json| == 1 ==> EncodeSetupCode(json) == UrlSymbols([json[0] / 4, json[0] % 4 * 16])
    ensures |json| == 2 ==>
              EncodeSetupCode(json) == UrlSymbols([json[0] / 4, json[0] % 4 * 16 + json[1] / 16, json[1] % 16 * 4])
    ensures |json| >= 3 ==>
              EncodeSetupCode(json) == UrlSymbols([json[0] / 4, json[0] % 4 * 16 + json[1] / 16,
                                                   json[1] % 16 * 4 + json[2] / 64, json[2] % 64])
                                       + EncodeSetupCode(json[3..])
  {
    if |json| >= 3 {
      SplitBits(json[0], json[1], json[2]);
      NextCode(json, Split(json[0], json[1], json[2]));
    } else {
      LastCode(json);
      CodeIs(json);
    }
  }

  /** Only letters, digits, "-" and "_", and as few of them as possible. */
  lemma CodeShape(json: seq<Byte>)
    ensures |EncodeSetupCode(json)| == (4 * |json| + 2) / 3
    ensures forall c :: c in EncodeSetupCode(json) ==>
              'A' <= c <= 'Z' || 'a' <= c <= 'z' || '0' <= c <= '9' || c == '-' || c == '_'
  {
    var code := EncodeSetupCode(json);
    StripsOnlyPadding(json);
    SextetCount(json);
    UrlSafeSymbols(Sextets(json));
    forall c | c in code ensures UrlValue(c).Some? {
      var i :| 0 <= i < |code| && code[i] == c;
    }
  }

  /** Encoding and decoding are inverse to each other: a code decodes to the bytes it was made
      from, and whatever decodes is the code of what it decodes to. */
  lemma DecodesIff(code: string, json: seq<Byte>)
    ensures Decode(code) == Some(json) <==> code == EncodeSetupCode(json)
  {
    StripsOnlyPadding(json);
    UrlSafeSymbols(Sextets(json));
    OctetsOfSextets(json);
    if Decode(code) == Some(json) {
      SextetsOfOctets(UrlValues(code));
      UrlValuesInjective(code, EncodeSetupCode(json));
    }
  }
}
