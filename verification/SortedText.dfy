/** Default sorting of strings: by UTF-16 code units, as `toSorted` does, and the canonical
    sorted list of a set of strings. */
module SortedText {
  import opened Text
  import opened Utf16

  /** Ranks characters as their UTF-16 encodings compare: those above U+FFFF are encoded with
      surrogates, which lie below U+E000. */
  function Rank(c: char): int {
    var u := c as int;
    if u >= 0x1_0000 then u - 0x1_0000 + 0xD800
    else if u >= 0xE000 then u + 0x11_0000
    else u
  }

  lemma RankInjective(a: char, b: char)
    ensures Rank(a) == Rank(b) <==> a == b
  {
  }

  predicate Less(a: string, b: string) {
    b != "" && (a == "" || Rank(a[0]) < Rank(b[0]) || (a[0] == b[0] && Less(a[1..], b[1..])))
  }

  // ---------- the order of code units ----------

  /** u and v agree before k, and there u ends or has the smaller unit. */
  predicate IsSmallerAt(u: seq<Unit>, v: seq<Unit>, k: nat) {
    k <= |u| && k < |v| && u[..k] == v[..k] && (k == |u| || u[k] < v[k])
  }

  /** u comes before v: it is a proper prefix, or has the smaller unit where they first differ. */
  ghost predicate ComesBefore(u: seq<Unit>, v: seq<Unit>) {
    exists k: nat :: IsSmallerAt(u, v, k)
  }

  /** The UTF-16 encoding of a string. */
  function Units(s: string): seq<Unit> {
    if s == "" then [] else EncodeOne(s[0] as int) + Units(s[1..])
  }

  lemma SamePartAt(p: seq<Unit>, u: seq<Unit>, v: seq<Unit>, k: nat)
    ensures IsSmallerAt(p + u, p + v, |p| + k) <==> IsSmallerAt(u, v, k)
  {
    if k <= |u| && k < |v| {
      assert (p + u)[..|p| + k] == p + u[..k] && (p + v)[..|p| + k] == p + v[..k];
      assert (p + u[..k])[|p|..] == u[..k] && (p + v[..k])[|p|..] == v[..k];
    }
  }

  lemma SamePart(p: seq<Unit>, u: seq<Unit>, v: seq<Unit>)
    ensures ComesBefore(p + u, p + v) <==> ComesBefore(u, v)
  {
    if ComesBefore(p + u, p + v) {
      var k: nat :| IsSmallerAt(p + u, p + v, k);
      assert k >= |p|;
      SamePartAt(p, u, v, k - |p|);
    }
    if ComesBefore(u, v) {
      var k: nat :| IsSmallerAt(u, v, k);
      SamePartAt(p, u, v, k);
    }
  }

  lemma AgreeBelow(u: seq<Unit>, v: seq<Unit>, n: nat, i: nat)
    requires i < n <= |u| && n <= |v| && u[..n] == v[..n]
    ensures u[i] == v[i]
  {
    assert u[..n][i] == v[..n][i];
  }

  lemma FirstDiffers(u: seq<Unit>, v: seq<Unit>, k: nat)
    requires k < |u| && k < |v| && u[..k] == v[..k] && u[k] != v[k]
    ensures ComesBefore(u, v) <==> u[k] < v[k]
  {
    if ComesBefore(u, v) {
      var j: nat :| IsSmallerAt(u, v, j);
      if j > k {
        AgreeBelow(u, v, j, k);
      } else if j < k {
        AgreeBelow(u, v, k, j);
      }
    }
    assert u[k] < v[k] ==> IsSmallerAt(u, v, k);
  }

  /** Two characters that differ are told apart by their first unit, or both are pairs with the
      same first unit; the rank puts them in the same order. */
  lemma RankIsUnitOrder(a: char, b: char, u: seq<Unit>, v: seq<Unit>)
    requires a != b
    ensures ComesBefore(EncodeOne(a as int) + u, EncodeOne(b as int) + v) <==> Rank(a) < Rank(b)
  {
    var x, y := EncodeOne(a as int), EncodeOne(b as int);
    if x[0] != y[0] {
      FirstDiffers(x + u, y + v, 0);
    } else {
      assert |x| == |y| == 2;
      FirstDiffers(x + u, y + v, 1);
    }
  }

  /** The order is that of the UTF-16 encodings. */
  lemma {:induction false} LessIsUnitOrder(a: string, b: string)
    ensures Less(a, b) <==> ComesBefore(Units(a), Units(b))
  {
    if a == "" || b == "" {
      assert a == "" && b != "" ==> IsSmallerAt(Units(a), Units(b), 0);
    } else if a[0] == b[0] {
      LessIsUnitOrder(a[1..], b[1..]);
      SamePart(EncodeOne(a[0] as int), Units(a[1..]), Units(b[1..]));
    } else {
      RankInjective(a[0], b[0]);
      RankIsUnitOrder(a[0], b[0], Units(a[1..]), Units(b[1..]));
    }
  }

  // ---------- sorted lists ----------

  lemma {:induction false} LessTransitive(a: string, b: string, c: string)
    requires Less(a, b) && Less(b, c)
    ensures Less(a, c)
  {
    if a != "" && a[0] == b[0] == c[0] {
      LessTransitive(a[1..], b[1..], c[1..]);
    }
  }

  lemma {:induction false} LessTotal(a: string, b: string)
    ensures Less(a, b) || a == b || Less(b, a)
    ensures !(Less(a, b) && Less(b, a)) && !Less(a, a)
  {
    if a != "" {
      LessTotal(a[1..], a[1..]);
    }
    if a != "" && b != "" {
      RankInjective(a[0], b[0]);
      if a[0] == b[0] {
        LessTotal(a[1..], b[1..]);
        assert a == [a[0]] + a[1..] && b == [b[0]] + b[1..];
      }
    }
  }

  predicate IsSorted(s: seq<string>) {
    forall i, j :: 0 <= i < j < |s| ==> Less(s[i], s[j])
  }

  function Elements(s: seq<string>): set<string> {
    set x | x in s
  }

  function Insert(x: string, s: seq<string>): seq<string> {
    if s == [] then [x]
    else if x == s[0] then s
    else if Less(x, s[0]) then [x] + s
    else [s[0]] + Insert(x, s[1..])
  }

  lemma {:induction false} InsertSorted(x: string, s: seq<string>)
    requires IsSorted(s)
    ensures IsSorted(Insert(x, s)) && Elements(Insert(x, s)) == Elements(s) + {x}
  {
    if s == [] {
    } else {
      LessTotal(x, s[0]);
      assert Elements(s) == {s[0]} + Elements(s[1..]);
      if x != s[0] && Less(x, s[0]) {
        forall j | 0 <= j < |s| ensures Less(x, s[j]) {
          if j > 0 { LessTransitive(x, s[0], s[j]); }
        }
      } else if x != s[0] {
        InsertSorted(x, s[1..]);
        var rest := Insert(x, s[1..]);
        forall j | 0 <= j < |rest| ensures Less(s[0], rest[j]) {
          assert rest[j] in Elements(rest);
        }
        assert Elements([s[0]] + rest) == {s[0]} + Elements(rest);
      }
    }
  }

  lemma HeadInElements(s: seq<string>)
    ensures s != [] ==> s[0] in Elements(s)
  {
  }

  lemma SortedTail(s: seq<string>)
    requires IsSorted(s) && s != []
    ensures IsSorted(s[1..]) && Elements(s[1..]) == Elements(s) - {s[0]}
  {
    LessTotal(s[0], s[0]);
    assert s == [s[0]] + s[1..];
  }

  /** A sorted list without duplicates is determined by its elements. */
  lemma {:induction false} SortedUnique(s: seq<string>, t: seq<string>)
    requires IsSorted(s) && IsSorted(t) && Elements(s) == Elements(t)
    ensures s == t
  {
    HeadInElements(s);
    HeadInElements(t);
    if s != [] && t != [] {
      LessTotal(s[0], t[0]);
      assert s[0] == t[0];
      SortedTail(s);
      SortedTail(t);
      SortedUnique(s[1..], t[1..]);
    }
  }

  /** The non-empty trimmed values. */
  function Normal(values: seq<string>): set<string> {
    set v | v in values && Trim(v) != "" :: Trim(v)
  }

  /** uniqSorted. */
  function UniqSorted(values: seq<string>): seq<string> {
    if values == [] then []
    else
      var rest, v := UniqSorted(values[1..]), Trim(values[0]);
      if v == "" then rest else Insert(v, rest)
  }

  lemma {:induction false} UniqSortedMeaning(values: seq<string>)
    ensures IsSorted(UniqSorted(values)) && Elements(UniqSorted(values)) == Normal(values)
  {
    if values == [] {
    } else {
      UniqSortedMeaning(values[1..]);
      var v := Trim(values[0]);
      assert values == [values[0]] + values[1..];
      assert Normal(values) == Normal(values[1..]) + if v == "" then {} else {v};
      if v != "" {
        InsertSorted(v, UniqSorted(values[1..]));
      }
    }
  }

  /** The result of uniqSorted depends only on the set of normalised values, so lists are
      equal after it exactly when they have the same members. */
  lemma UniqSortedEqualIff(a: seq<string>, b: seq<string>)
    ensures UniqSorted(a) == UniqSorted(b) <==> Normal(a) == Normal(b)
  {
    UniqSortedMeaning(a);
    UniqSortedMeaning(b);
    if Normal(a) == Normal(b) {
      SortedUnique(UniqSorted(a), UniqSorted(b));
    }
  }

  lemma NormalIsTrimmed(values: seq<string>, v: string)
    requires v in Normal(values)
    ensures Trim(v) == v && v != ""
  {
    var u :| u in values && Trim(u) == v;
    TrimIdempotent(u);
  }
}
