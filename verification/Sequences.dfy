/** Sequences: filtering and mapping in one go, joining, and what permutations keep. */
module Sequences {
  import opened Text

  /** The values of the elements that have one, in order. */
  function FilterMap<A, B>(s: seq<A>, f: A -> Option<B>): seq<B> {
    if s == [] then []
    else (if f(s[0]).Some? then [f(s[0]).value] else []) + FilterMap(s[1..], f)
  }

  lemma {:induction false} FilterMapPush<A, B>(s: seq<A>, x: A, f: A -> Option<B>)
    ensures FilterMap(s + [x], f) == FilterMap(s, f) + if f(x).Some? then [f(x).value] else []
  {
    if s == [] {
      assert [x][1..] == [];
    } else {
      FilterMapPush(s[1..], x, f);
      assert (s + [x])[1..] == s[1..] + [x];
    }
  }

  lemma {:induction false} FilterMapConcat<A, B>(s: seq<A>, t: seq<A>, f: A -> Option<B>)
    ensures FilterMap(s + t, f) == FilterMap(s, f) + FilterMap(t, f)
  {
    if t == [] {
      assert s + t == s;
    } else {
      var t', x := t[..|t| - 1], t[|t| - 1];
      FilterMapConcat(s, t', f);
      FilterMapPush(s + t', x, f);
      FilterMapPush(t', x, f);
      assert s + t == (s + t') + [x] && t == t' + [x];
    }
  }

  function Without<A>(s: seq<A>, i: nat): seq<A>
    requires i < |s|
  {
    s[..i] + s[i + 1..]
  }

  lemma WithoutMultiset<A>(s: seq<A>, i: nat)
    requires i < |s|
    ensures multiset(Without(s, i)) == multiset(s) - multiset{s[i]}
  {
    assert s == s[..i] + [s[i]] + s[i + 1..];
  }

  lemma SplitAround<A>(s: seq<A>, i: nat)
    requires i < |s|
    ensures s == (s[..i] + [s[i]]) + s[i + 1..] && Without(s, i) == s[..i] + s[i + 1..]
  {
  }

  lemma TakeOutMiddle<A>(a: seq<A>, x: seq<A>, b: seq<A>)
    ensures multiset((a + x) + b) == multiset(a + b) + multiset(x)
  {
  }

  lemma FilterMapAround<A, B>(a: seq<A>, x: A, b: seq<A>, f: A -> Option<B>)
    ensures multiset(FilterMap((a + [x]) + b, f)) == multiset(FilterMap(a + b, f)) + multiset(FilterMap([x], f))
  {
    FilterMapConcat(a, [x], f);
    FilterMapConcat(a + [x], b, f);
    FilterMapConcat(a, b, f);
    TakeOutMiddle(FilterMap(a, f), FilterMap([x], f), FilterMap(b, f));
  }

  lemma FilterMapWithout<A, B>(s: seq<A>, i: nat, f: A -> Option<B>)
    requires i < |s|
    ensures multiset(FilterMap(s, f)) == multiset(FilterMap(Without(s, i), f)) + multiset(FilterMap([s[i]], f))
  {
    SplitAround(s, i);
    FilterMapAround(s[..i], s[i], s[i + 1..], f);
  }

  lemma SameElement<A>(s: seq<A>, t: seq<A>) returns (i: nat)
    requires multiset(s) == multiset(t) && s != []
    ensures i < |t| && t[i] == s[0] && multiset(Without(s, 0)) == multiset(Without(t, i))
  {
    assert s[0] in multiset(t);
    i :| 0 <= i < |t| && t[i] == s[0];
    WithoutMultiset(s, 0);
    WithoutMultiset(t, i);
  }

  /** Filtering and mapping keeps permutations. */
  lemma {:induction false} FilterMapPermutes<A, B>(s: seq<A>, t: seq<A>, f: A -> Option<B>)
    requires multiset(s) == multiset(t)
    ensures multiset(FilterMap(s, f)) == multiset(FilterMap(t, f))
    decreases |s|
  {
    if s == [] {
      assert |multiset(t)| == 0;
    } else {
      var i := SameElement(s, t);
      FilterMapPermutes(Without(s, 0), Without(t, i), f);
      FilterMapWithout(s, 0, f);
      FilterMapWithout(t, i, f);
    }
  }

  lemma {:induction false} FilterMapMeaning<A, B>(s: seq<A>, f: A -> Option<B>)
    ensures forall y :: y in FilterMap(s, f) <==> exists x :: x in s && f(x) == Some(y)
    ensures FilterMap(s, f) == [] <==> forall x :: x in s ==> f(x).None?
  {
    if s == [] {
    } else {
      FilterMapMeaning(s[1..], f);
      assert s == [s[0]] + s[1..];
    }
  }

  // ---------- joining ----------

  function Flatten<A>(parts: seq<seq<A>>): seq<A> {
    if parts == [] then [] else parts[0] + Flatten(parts[1..])
  }

  lemma {:induction false} FlattenPush<A>(parts: seq<seq<A>>, part: seq<A>)
    ensures Flatten(parts + [part]) == Flatten(parts) + part
  {
    if parts == [] {
      assert [part][1..] == [];
    } else {
      FlattenPush(parts[1..], part);
      assert (parts + [part])[1..] == parts[1..] + [part];
    }
  }

  lemma {:induction false} FlattenConcat<A>(a: seq<seq<A>>, b: seq<seq<A>>)
    ensures Flatten(a + b) == Flatten(a) + Flatten(b)
  {
    if b == [] {
      assert a + b == a;
    } else {
      var b', x := b[..|b| - 1], b[|b| - 1];
      FlattenConcat(a, b');
      FlattenPush(a + b', x);
      FlattenPush(b', x);
      assert a + b == (a + b') + [x] && b == b' + [x];
    }
  }

  lemma FlattenAround<A>(a: seq<seq<A>>, x: seq<A>, b: seq<seq<A>>)
    ensures multiset(Flatten((a + [x]) + b)) == multiset(Flatten(a + b)) + multiset(x)
  {
    FlattenConcat(a + [x], b);
    FlattenPush(a, x);
    FlattenConcat(a, b);
    TakeOutMiddle(Flatten(a), x, Flatten(b));
  }

  lemma FlattenWithout<A>(parts: seq<seq<A>>, i: nat)
    requires i < |parts|
    ensures multiset(Flatten(parts)) == multiset(Flatten(Without(parts, i))) + multiset(parts[i])
  {
    SplitAround(parts, i);
    FlattenAround(parts[..i], parts[i], parts[i + 1..]);
  }

  /** Joining in another order gives a permutation. */
  lemma {:induction false} FlattenPermutes<A>(a: seq<seq<A>>, b: seq<seq<A>>)
    requires multiset(a) == multiset(b)
    ensures multiset(Flatten(a)) == multiset(Flatten(b))
    decreases |a|
  {
    if a == [] {
      assert |multiset(b)| == 0;
    } else {
      var i := SameElement(a, b);
      FlattenPermutes(Without(a, 0), Without(b, i));
      FlattenWithout(a, 0);
      FlattenWithout(b, i);
    }
  }

  /** Joining permuted parts gives a permutation. */
  lemma {:induction false} FlattenPermutedParts<A>(a: seq<seq<A>>, b: seq<seq<A>>)
    requires |a| == |b| && forall i :: 0 <= i < |a| ==> multiset(a[i]) == multiset(b[i])
    ensures multiset(Flatten(a)) == multiset(Flatten(b))
  {
    if a == [] {
    } else {
      FlattenPermutedParts(a[1..], b[1..]);
    }
  }
}
