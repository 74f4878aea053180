/** Slicing UTF-16 text without splitting a surrogate pair (src/utils.ts:229-272).  A string
    is the sequence of its code units, well formed or not; the encoding form is that of
    section 3.9 of the Unicode Standard. */
module Utf16 {
  import opened Text

  newtype Unit = u: int | 0 <= u < 0x1_0000

  predicate IsHighSurrogate(u: Unit) {
    0xD800 <= u <= 0xDBFF
  }

  predicate IsLowSurrogate(u: Unit) {
    0xDC00 <= u <= 0xDFFF
  }

  function Min(a: int, b: int): int { if a < b then a else b }
  function Max(a: int, b: int): int { if a < b then b else a }

  /** `String.prototype.slice` for bounds that are already inside the string. */
  function Slice(s: seq<Unit>, from: nat, to: nat): seq<Unit>
    requires to <= |s|
  {
    if from <= to then s[from..to] else []
  }

  /** Where a start or end argument points: from the end when negative, and clamped. */
  function ResolveIndex(i: int, len: nat): (r: nat)
    ensures r <= len
    ensures 0 <= i <= len ==> r == i
    ensures i > len ==> r == len
    ensures i < 0 ==> if len + i >= 0 then r == len + i else r == 0
  {
    if i < 0 then Max(len + i, 0) else Min(i, len)
  }

  function LowerBound(s: seq<Unit>, start: int, end: Option<int>): (r: nat)
    ensures r <= |s|
    ensures r <= ResolveIndex(start, |s|) && (end.Some? ==> r <= ResolveIndex(end.value, |s|))
    ensures r == ResolveIndex(start, |s|) || (end.Some? && r == ResolveIndex(end.value, |s|))
  {
    var from, to := ResolveIndex(start, |s|), if end.None? then |s| else ResolveIndex(end.value, |s|);
    Min(from, to)
  }

  function UpperBound(s: seq<Unit>, start: int, end: Option<int>): (r: nat)
    ensures r <= |s|
    ensures ResolveIndex(start, |s|) <= r && (end.Some? ==> ResolveIndex(end.value, |s|) <= r)
    ensures if end.None? then r == |s| else r == ResolveIndex(start, |s|) || r == ResolveIndex(end.value, |s|)
  {
    var from, to := ResolveIndex(start, |s|), if end.None? then |s| else ResolveIndex(end.value, |s|);
    Max(from, to)
  }

  // ---------- code points, walked from the start ----------

  /** The number of units of the code point that starts at i; a lone surrogate counts as one. */
  function Width(s: seq<Unit>, i: nat): (w: nat)
    requires i < |s|
    ensures 1 <= w <= 2 && i + w <= |s|
  {
    if IsHighSurrogate(s[i]) && i + 1 < |s| && IsLowSurrogate(s[i + 1]) then 2 else 1
  }

  /** The code points that start at or after i and lie wholly inside [from, to). */
  function WholeCodePoints(s: seq<Unit>, i: nat, from: nat, to: nat): seq<Unit>
    requires i <= |s|
    decreases |s| - i
  {
    if i == |s| then []
    else
      var next := i + Width(s, i);
      (if from <= i && next <= to then s[i..next] else []) + WholeCodePoints(s, next, from, to)
  }

  /** The walk starts a code point at i. */
  predicate IsBoundary(s: seq<Unit>, i: nat)
    requires i <= |s|
  {
    !(0 < i < |s| && IsHighSurrogate(s[i - 1]) && IsLowSurrogate(s[i]))
  }

  /** The first boundary at or after i, and the last at or before it. */
  function BoundaryUp(s: seq<Unit>, i: nat): (r: nat)
    requires i <= |s|
    ensures r <= |s|
  {
    if IsBoundary(s, i) then i else i + 1
  }

  function BoundaryDown(s: seq<Unit>, i: nat): (r: nat)
    requires i <= |s|
    ensures r <= |s|
  {
    if IsBoundary(s, i) then i else i - 1
  }

  lemma AroundCodePoint(s: seq<Unit>, i: nat, from: nat, to: nat)
    requires i < |s| && IsBoundary(s, i) && from <= |s| && to <= |s|
    ensures var next, lo, hi := i + Width(s, i), BoundaryUp(s, from), BoundaryDown(s, to);
            && IsBoundary(s, next)
            && (if from > i then lo >= next else lo <= i)
            && (if to >= next then hi >= next else hi <= i)
  {
  }

  lemma SliceStep(s: seq<Unit>, i: nat, next: nat, lo: nat, hi: nat)
    requires i < next <= |s| && hi <= |s| && (lo <= i || lo >= next) && (hi <= i || hi >= next)
    ensures (if lo <= i && next <= hi then s[i..next] else []) + Slice(s, Max(next, lo), hi) == Slice(s, Max(i, lo), hi)
  {
  }

  lemma {:induction false} WalkFrom(s: seq<Unit>, i: nat, from: nat, to: nat)
    requires i <= |s| && IsBoundary(s, i) && from <= |s| && to <= |s|
    ensures WholeCodePoints(s, i, from, to) == Slice(s, Max(i, BoundaryUp(s, from)), BoundaryDown(s, to))
    decreases |s| - i
  {
    if i >= |s| {
    } else {
      AroundCodePoint(s, i, from, to);
      var next := i + Width(s, i);
      WalkFrom(s, next, from, to);
      SliceStep(s, i, next, BoundaryUp(s, from), BoundaryDown(s, to));
    }
  }

  /** The code-point walk from the start, in closed form. */
  lemma WholeWalk(s: seq<Unit>, from: nat, to: nat)
    requires from <= |s| && to <= |s|
    ensures WholeCodePoints(s, 0, from, to) == Slice(s, BoundaryUp(s, from), BoundaryDown(s, to))
  {
    WalkFrom(s, 0, from, to);
  }

  lemma BoundsAdjusted(s: seq<Unit>, from: nat, to: nat, r: seq<Unit>)
    requires from <= |s| && to <= |s| && r == Slice(s, BoundaryUp(s, from), BoundaryDown(s, to))
    ensures r == WholeCodePoints(s, 0, from, to)
  {
    WholeWalk(s, from, to);
  }

  // ---------- the program ----------

  /** sliceUtf16Safe, against the walk over the whole string, for any bounds: negative,
      swapped, beyond the end or in the middle of a pair. */
  method SliceUtf16Safe(input: seq<Unit>, start: int, end: Option<int>) returns (r: seq<Unit>)
    ensures r == WholeCodePoints(input, 0, LowerBound(input, start, end), UpperBound(input, start, end))
  {
    var len := |input|;
    var from: nat := if start < 0 then Max(len + start, 0) else Min(start, len);
    var to: nat := if end.None? then len else if end.value < 0 then Max(len + end.value, 0) else Min(end.value, len);
    if to < from {
      var tmp := from;
      from := to;
      to := tmp;
    }
    ghost var lo, hi := LowerBound(input, start, end), UpperBound(input, start, end);
    assert from == lo && to == hi;
    if from > 0 && from < len {
      var codeUnit := input[from];
      if IsLowSurrogate(codeUnit) && IsHighSurrogate(input[from - 1]) {
        from := from + 1;
      }
    }
    assert from == BoundaryUp(input, lo);
    if to > 0 && to < len {
      var codeUnit := input[to - 1];
      if IsHighSurrogate(codeUnit) && IsLowSurrogate(input[to]) {
        to := to - 1;
      }
    }
    assert to == BoundaryDown(input, hi);
    r := Slice(input, from, to);
    BoundsAdjusted(input, lo, hi, r);
  }

  /** The limit of truncateUtf16Safe. */
  function Limit(maxLen: real): (n: nat)
    ensures if maxLen < 0.0 then n == 0 else n as real <= maxLen < n as real + 1.0
  {
    Max(0, maxLen.Floor)
  }

  /** r is a prefix of s, made of whole code points and at most n units long, and no longer
      such prefix exists. */
  ghost predicate IsLongestWholePrefix(r: seq<Unit>, s: seq<Unit>, n: nat) {
    && r <= s && |r| <= n && IsBoundary(s, |r|)
    && forall k :: 0 <= k <= |s| && k <= n && IsBoundary(s, k) ==> k <= |r|
  }

  method TruncateUtf16Safe(input: seq<Unit>, maxLen: real) returns (r: seq<Unit>)
    ensures IsLongestWholePrefix(r, input, Limit(maxLen))
  {
    var limit := Limit(maxLen);
    if |input| <= limit {
      return input;
    }
    r := SliceUtf16Safe(input, 0, Some(limit));
    WholeWalk(input, 0, limit);
    assert r == input[..BoundaryDown(input, limit)];
  }

  // ---------- well-formed text ----------

  /** A Unicode scalar value. */
  type Scalar = c: int | 0 <= c < 0x11_0000 && !(0xD800 <= c <= 0xDFFF)

  /** UTF-16 of one scalar value. */
  function EncodeOne(c: Scalar): (u: seq<Unit>)
    ensures 1 <= |u| <= 2
    ensures |u| == 2 ==> IsHighSurrogate(u[0]) && IsLowSurrogate(u[1])
    ensures |u| == 1 ==> !IsHighSurrogate(u[0]) && !IsLowSurrogate(u[0])
  {
    if c < 0x1_0000 then [c as Unit]
    else [(0xD800 + (c - 0x1_0000) / 0x400) as Unit, (0xDC00 + (c - 0x1_0000) % 0x400) as Unit]
  }

  function Encode(cs: seq<Scalar>): seq<Unit> {
    if cs == [] then [] else Encode(cs[..|cs| - 1]) + EncodeOne(cs[|cs| - 1])
  }

  lemma {:induction false} EncodeSplit(cs: seq<Scalar>, ds: seq<Scalar>)
    ensures Encode(cs + ds) == Encode(cs) + Encode(ds)
  {
    if ds == [] {
      assert cs + ds == cs;
    } else {
      assert (cs + ds)[..|cs + ds| - 1] == cs + ds[..|ds| - 1];
      EncodeSplit(cs, ds[..|ds| - 1]);
    }
  }

  /** No encoded text starts with a low or ends with a high surrogate. */
  lemma {:induction false} EncodeEnds(cs: seq<Scalar>)
    requires cs != []
    ensures Encode(cs) != [] && !IsLowSurrogate(Encode(cs)[0]) && !IsHighSurrogate(Encode(cs)[|Encode(cs)| - 1])
  {
    var init, last := cs[..|cs| - 1], EncodeOne(cs[|cs| - 1]);
    assert Encode(cs) == Encode(init) + last;
    if init == [] {
    } else {
      EncodeEnds(init);
    }
  }

  /** The boundaries of encoded text are the ends of the encodings of its prefixes. */
  lemma PrefixIsBoundary(cs: seq<Scalar>, k: nat)
    requires k <= |cs|
    ensures Encode(cs[..k]) <= Encode(cs) && IsBoundary(Encode(cs), |Encode(cs[..k])|)
  {
    assert cs == cs[..k] + cs[k..];
    EncodeSplit(cs[..k], cs[k..]);
    if 0 < k < |cs| {
      EncodeEnds(cs[..k]);
      EncodeEnds(cs[k..]);
    }
  }

  lemma NoBoundaryInside(cs: seq<Scalar>, i: nat)
    requires cs != [] && |Encode(cs[..|cs| - 1])| < i < |Encode(cs)|
    ensures !IsBoundary(Encode(cs), i)
  {
  }

  lemma {:induction false} BoundaryIsPrefix(cs: seq<Scalar>, i: nat)
    requires i <= |Encode(cs)| && IsBoundary(Encode(cs), i)
    ensures exists k :: 0 <= k <= |cs| && i == |Encode(cs[..k])|
  {
    if cs == [] {
      assert i == |Encode(cs[..0])|;
    } else {
      var init, s := cs[..|cs| - 1], Encode(cs);
      assert s == Encode(init) + EncodeOne(cs[|cs| - 1]);
      if i == |s| {
        assert cs[..|cs|] == cs;
      } else if i > |Encode(init)| {
        NoBoundaryInside(cs, i);
      } else {
        assert IsBoundary(Encode(init), i) by {
          if 0 < i < |Encode(init)| {
            assert s[i - 1] == Encode(init)[i - 1] && s[i] == Encode(init)[i];
          }
        }
        BoundaryIsPrefix(init, i);
        var k :| 0 <= k <= |init| && i == |Encode(init[..k])|;
        assert init[..k] == cs[..k];
      }
    }
  }

  /** The code points i up to j are those wholly inside the range of units. */
  ghost predicate IsWholeRange(cs: seq<Scalar>, from: nat, to: nat, i: nat, j: nat) {
    forall k :: 0 <= k < |cs| ==> (i <= k < j <==> from <= |Encode(cs[..k])| && |Encode(cs[..k + 1])| <= to)
  }

  function EncodeRange(cs: seq<Scalar>, i: nat, j: nat): seq<Unit>
    requires j <= |cs|
  {
    if i <= j then Encode(cs[i..j]) else []
  }

  lemma BoundaryBounds(s: seq<Unit>, i: nat, b: nat)
    requires i <= |s| && b <= |s| && IsBoundary(s, b)
    ensures BoundaryUp(s, i) <= b <==> i <= b
    ensures b <= BoundaryDown(s, i) <==> b <= i
  {
  }

  lemma EncodedRange(cs: seq<Scalar>, i: nat, j: nat)
    requires i <= j <= |cs|
    ensures |Encode(cs[..i])| <= |Encode(cs[..j])| <= |Encode(cs)|
    ensures Encode(cs)[|Encode(cs[..i])|..|Encode(cs[..j])|] == Encode(cs[i..j])
  {
    assert cs == cs[..j] + cs[j..] && cs[..j] == cs[..i] + cs[i..j];
    EncodeSplit(cs[..j], cs[j..]);
    EncodeSplit(cs[..i], cs[i..j]);
  }

  lemma EncodedLengths(cs: seq<Scalar>, i: nat, j: nat)
    requires i < j <= |cs|
    ensures |Encode(cs[..i])| < |Encode(cs[..j])|
  {
    EncodedRange(cs, i, j);
    EncodeEnds(cs[i..j]);
  }

  lemma OrderedLengths(cs: seq<Scalar>, i: nat, j: nat)
    requires i <= |cs| && j <= |cs|
    ensures i <= j <==> |Encode(cs[..i])| <= |Encode(cs[..j])|
  {
    if i < j {
      EncodedLengths(cs, i, j);
    } else if j < i {
      EncodedLengths(cs, j, i);
    }
  }

  lemma InRange(cs: seq<Scalar>, from: nat, to: nat, i: nat, j: nat, k: nat)
    requires k < |cs| && i <= |cs| && j <= |cs| && from <= |Encode(cs)| && to <= |Encode(cs)|
    requires BoundaryUp(Encode(cs), from) == |Encode(cs[..i])| && BoundaryDown(Encode(cs), to) == |Encode(cs[..j])|
    ensures i <= k < j <==> from <= |Encode(cs[..k])| && |Encode(cs[..k + 1])| <= to
  {
    PrefixIsBoundary(cs, k);
    PrefixIsBoundary(cs, k + 1);
    BoundaryBounds(Encode(cs), from, |Encode(cs[..k])|);
    BoundaryBounds(Encode(cs), to, |Encode(cs[..k + 1])|);
    OrderedLengths(cs, i, k);
    OrderedLengths(cs, k + 1, j);
  }

  lemma RangeIsWhole(cs: seq<Scalar>, from: nat, to: nat, i: nat, j: nat)
    requires i <= |cs| && j <= |cs| && from <= |Encode(cs)| && to <= |Encode(cs)|
    requires BoundaryUp(Encode(cs), from) == |Encode(cs[..i])| && BoundaryDown(Encode(cs), to) == |Encode(cs[..j])|
    ensures IsWholeRange(cs, from, to, i, j)
  {
    forall k | 0 <= k < |cs|
      ensures i <= k < j <==> from <= |Encode(cs[..k])| && |Encode(cs[..k + 1])| <= to
    {
      InRange(cs, from, to, i, j, k);
    }
  }

  lemma SliceIsRange(cs: seq<Scalar>, i: nat, j: nat)
    requires i <= |cs| && j <= |cs| && |Encode(cs[..j])| <= |Encode(cs)|
    ensures Slice(Encode(cs), |Encode(cs[..i])|, |Encode(cs[..j])|) == EncodeRange(cs, i, j)
  {
    if i <= j {
      EncodedRange(cs, i, j);
    } else {
      EncodedLengths(cs, j, i);
    }
  }

  lemma BoundaryUpIsBoundary(s: seq<Unit>, i: nat)
    requires i <= |s|
    ensures IsBoundary(s, BoundaryUp(s, i)) && IsBoundary(s, BoundaryDown(s, i))
  {
  }

  /** On well-formed text the result is the text of a run of its code points: those that lie
      wholly inside the resolved range, and so it is well formed again. */
  lemma SliceOfEncoded(cs: seq<Scalar>, from: nat, to: nat)
    requires from <= to <= |Encode(cs)|
    ensures exists i, j :: 0 <= i <= |cs| && 0 <= j <= |cs| && IsWholeRange(cs, from, to, i, j)
              && WholeCodePoints(Encode(cs), 0, from, to) == EncodeRange(cs, i, j)
  {
    var s := Encode(cs);
    WholeWalk(s, from, to);
    BoundaryUpIsBoundary(s, from);
    BoundaryUpIsBoundary(s, to);
    BoundaryIsPrefix(cs, BoundaryUp(s, from));
    BoundaryIsPrefix(cs, BoundaryDown(s, to));
    var i :| 0 <= i <= |cs| && BoundaryUp(s, from) == |Encode(cs[..i])|;
    var j :| 0 <= j <= |cs| && BoundaryDown(s, to) == |Encode(cs[..j])|;
    SliceIsRange(cs, i, j);
    RangeIsWhole(cs, from, to, i, j);
  }

  /** On well-formed text, truncation keeps the longest prefix of whole code points that fits. */
  lemma TruncateOfEncoded(cs: seq<Scalar>, n: nat, r: seq<Unit>)
    requires IsLongestWholePrefix(r, Encode(cs), n)
    ensures exists k :: 0 <= k <= |cs| && r == Encode(cs[..k]) && (k < |cs| ==> |Encode(cs[..k + 1])| > n)
  {
    BoundaryIsPrefix(cs, |r|);
    var k :| 0 <= k <= |cs| && |r| == |Encode(cs[..k])|;
    PrefixIsBoundary(cs, k);
    assert r == Encode(cs[..k]);
    if k < |cs| {
      PrefixIsBoundary(cs, k + 1);
      EncodedLengths(cs, k, k + 1);
    }
  }
}
