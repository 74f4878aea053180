/** The isolated copy of a module's relative-import graph
    (scripts/load-channel-config-surface.ts).  A path is absolute and given by its
    segments; the file system is a map from each regular file to the import
    specifiers its text contains, in order. */
module ImportGraph {
  import opened Text

  type Path = seq<string>
  type Sources = map<Path, seq<string>>

  const SOURCE_FILE_EXTENSIONS: seq<string> :=
    [".ts", ".tsx", ".mts", ".cts", ".js", ".jsx", ".mjs", ".cjs"]

  // ---------- paths ----------

  function Parent(p: Path): Path {
    if p == [] then [] else p[..|p| - 1]
  }

  function Split(s: string): (parts: seq<string>)
    ensures parts != []
  {
    if s == "" then [""]
    else
      var rest := Split(s[1..]);
      if s[0] == '/' then [""] + rest else [[s[0]] + rest[0]] + rest[1..]
  }

  function Step(dir: Path, segment: string): Path {
    if segment == "" || segment == "." then dir
    else if segment == ".." then Parent(dir)
    else dir + [segment]
  }

  function Walk(dir: Path, segments: seq<string>): Path
    decreases segments
  {
    if segments == [] then dir else Walk(Step(dir, segments[0]), segments[1..])
  }

  /** `path.resolve(path.dirname(fromFile), specifier)` for a specifier that starts with a dot. */
  function ImportBase(fromFile: Path, specifier: string): Path {
    Walk(Parent(fromFile), Split(specifier))
  }

  function LastDot(name: string): int {
    if name == "" then -1
    else if name[|name| - 1] == '.' then |name| - 1
    else LastDot(name[..|name| - 1])
  }

  lemma LastDotRange(name: string)
    ensures -1 <= LastDot(name) < |name|
  {
  }

  lemma {:induction false} LastDotSkips(name: string, tail: string)
    requires '.' !in tail
    ensures LastDot(name + tail) == LastDot(name)
  {
    if tail == "" {
      assert name + tail == name;
    } else {
      LastDotSkips(name, tail[..|tail| - 1]);
      assert (name + tail)[..|name + tail| - 1] == name + tail[..|tail| - 1];
    }
  }

  /** `path.extname` of a base name. */
  function Extension(name: string): (e: string)
    ensures e != "" ==> |e| < |name|
  {
    var i := LastDot(name);
    if i <= 0 || name == ".." then "" else LastDotRange(name); name[i..]
  }

  function BaseName(p: Path): string {
    if p == [] then "" else p[|p| - 1]
  }

  function WithBaseName(p: Path, name: string): Path {
    Parent(p) + [name]
  }

  // ---------- resolving one import ----------

  function SwapExtension(base: Path, stem: string, extensions: seq<string>): seq<Path> {
    seq(|extensions|, i requires 0 <= i < |extensions| => WithBaseName(base, stem + extensions[i]))
  }

  function AddExtension(base: Path, extensions: seq<string>): seq<Path> {
    seq(2 * |extensions|, i requires 0 <= i < 2 * |extensions| =>
      if i % 2 == 0 then WithBaseName(base, BaseName(base) + extensions[i / 2])
      else base + ["index" + extensions[i / 2]])
  }

  /** The files an import may mean, in the order they are tried.  The program keeps them
      in a `Set`; dropping a later duplicate does not change which one is found first. */
  function ResolveImportCandidates(base: Path): seq<Path> {
    var name := BaseName(base);
    var extension := Extension(name);
    if extension != ""
    then [base] + SwapExtension(base, name[..|name| - |extension|], SOURCE_FILE_EXTENSIONS)
    else [base] + AddExtension(base, SOURCE_FILE_EXTENSIONS)
  }

  function FirstFile(files: set<Path>, candidates: seq<Path>): Option<Path> {
    if candidates == [] then None
    else if candidates[0] in files then Some(candidates[0])
    else FirstFile(files, candidates[1..])
  }

  function ResolveRelativeImportPath(files: set<Path>, fromFile: Path, specifier: string): Option<Path> {
    FirstFile(files, ResolveImportCandidates(ImportBase(fromFile, specifier)))
  }

  lemma {:induction false} FirstFileMeaning(files: set<Path>, cs: seq<Path>)
    ensures FirstFile(files, cs).None? ==> forall c :: c in cs ==> c !in files
    ensures FirstFile(files, cs).Some? ==>
              exists i :: 0 <= i < |cs| && cs[i] == FirstFile(files, cs).value && cs[i] in files
                          && forall k :: 0 <= k < i ==> cs[k] !in files
  {
    if cs != [] && cs[0] !in files {
      FirstFileMeaning(files, cs[1..]);
      assert cs == [cs[0]] + cs[1..];
      if FirstFile(files, cs[1..]).Some? {
        var i :| 0 <= i < |cs[1..]| && cs[1..][i] == FirstFile(files, cs[1..]).value && cs[1..][i] in files
                 && forall k :: 0 <= k < i ==> cs[1..][k] !in files;
        assert cs[i + 1] == cs[1..][i];
        forall k | 0 <= k < i + 1 ensures cs[k] !in files {
          if k > 0 { assert cs[k] == cs[1..][k - 1]; }
        }
      }
    }
  }

  // ---------- the import graph ----------

  predicate IsRelative(specifier: string) {
    specifier != "" && specifier[0] == '.'
  }

  /** What each specifier in the text of one file leads to; other than relative ones are skipped. */
  function Resolver(files: set<Path>, fromFile: Path): string -> Option<Path> {
    s => if IsRelative(s) then ResolveRelativeImportPath(files, fromFile, s) else None
  }

  ghost predicate Imports(fs: Sources, a: Path, b: Path) {
    a in fs && exists s :: s in fs[a] && Resolver(fs.Keys, a)(s) == Some(b)
  }

  ghost function ImportEdges(fs: Sources): (Path, Path) -> bool {
    (a, b) => Imports(fs, a, b)
  }

  ghost predicate IsChain(edge: (Path, Path) -> bool, chain: seq<Path>) {
    chain != [] && forall i :: 0 < i < |chain| ==> edge(chain[i - 1], chain[i])
  }

  ghost predicate Leads(edge: (Path, Path) -> bool, p: Path, q: Path) {
    exists chain :: IsChain(edge, chain) && chain[0] == p && chain[|chain| - 1] == q
  }

  /** Some chain of relative imports leads from the entry to p. */
  ghost predicate Reachable(fs: Sources, entry: Path, p: Path) {
    Leads(ImportEdges(fs), entry, p)
  }

  lemma LeadsSelf(edge: (Path, Path) -> bool, p: Path)
    ensures Leads(edge, p, p)
  {
    assert IsChain(edge, [p]);
  }

  lemma LeadsStep(edge: (Path, Path) -> bool, entry: Path, a: Path, b: Path)
    requires Leads(edge, entry, a) && edge(a, b)
    ensures Leads(edge, entry, b)
  {
    var chain :| IsChain(edge, chain) && chain[0] == entry && chain[|chain| - 1] == a;
    var longer := chain + [b];
    assert IsChain(edge, longer) && longer[0] == entry && longer[|longer| - 1] == b;
  }

  lemma {:induction false} ClosedContainsChain(edge: (Path, Path) -> bool, closed: seq<Path>, chain: seq<Path>)
    requires IsChain(edge, chain) && chain[0] in closed
    requires forall a, b :: a in closed && edge(a, b) ==> b in closed
    ensures chain[|chain| - 1] in closed
  {
    if |chain| <= 1 {
    } else {
      ClosedContainsChain(edge, closed, chain[..|chain| - 1]);
      assert edge(chain[|chain| - 2], chain[|chain| - 1]);
    }
  }

  lemma ResolvedIsFile(files: set<Path>, a: Path, s: string)
    ensures ResolveRelativeImportPath(files, a, s).Some? ==> ResolveRelativeImportPath(files, a, s).value in files
  {
    FirstFileMeaning(files, ResolveImportCandidates(ImportBase(a, s)));
  }

  function SetOf(s: seq<Path>): set<Path> {
    set p | p in s
  }

  predicate Distinct<T(==)>(s: seq<T>) {
    forall i, j :: 0 <= i < j < |s| ==> s[i] != s[j]
  }

  datatype Result<+T> = Ok(value: T) | MissingFile(path: Path)

  /** The files the specifiers lead to, in order. */
  function ResolvedImports(resolve: string -> Option<Path>, specifiers: seq<string>): seq<Path> {
    if specifiers == [] then []
    else
      ResolvedImports(resolve, specifiers[..|specifiers| - 1])
      + match resolve(specifiers[|specifiers| - 1])
        case Some(b) => [b]
        case None => []
  }

  lemma {:induction false} ResolvedImportsMeaning(resolve: string -> Option<Path>, specifiers: seq<string>, b: Path)
    ensures b in ResolvedImports(resolve, specifiers) <==> exists s :: s in specifiers && resolve(s) == Some(b)
  {
    if specifiers == [] {
    } else {
      ResolvedImportsMeaning(resolve, specifiers[..|specifiers| - 1], b);
      assert specifiers == specifiers[..|specifiers| - 1] + [specifiers[|specifiers| - 1]];
    }
  }

  lemma ResolvedPush(resolve: string -> Option<Path>, specifiers: seq<string>, i: nat)
    requires i < |specifiers|
    ensures ResolvedImports(resolve, specifiers[..i + 1])
            == ResolvedImports(resolve, specifiers[..i])
               + if resolve(specifiers[i]).Some? then [resolve(specifiers[i]).value] else []
  {
    assert specifiers[..i + 1][..i] == specifiers[..i];
  }

  /** Pushes onto the queue the files the relative imports of one file resolve to. */
  method PushImports(files: set<Path>, current: Path, specifiers: seq<string>, queue: seq<Path>)
    returns (next: seq<Path>)
    ensures next == queue + ResolvedImports(Resolver(files, current), specifiers)
  {
    next := queue;
    for i := 0 to |specifiers|
      invariant next == queue + ResolvedImports(Resolver(files, current), specifiers[..i])
    {
      ResolvedPush(Resolver(files, current), specifiers, i);
      if !IsRelative(specifiers[i]) {
        continue;
      }
      var resolved := ResolveRelativeImportPath(files, current, specifiers[i]);
      if resolved.Some? {
        next := next + [resolved.value];
      }
    }
    assert specifiers[..|specifiers|] == specifiers;
  }

  /** What a step of the worklist learns: exactly the imports of the current file. */
  lemma PushedExactly(fs: Sources, current: Path, b: Path)
    requires current in fs
    ensures b in ResolvedImports(Resolver(fs.Keys, current), fs[current]) <==> ImportEdges(fs)(current, b)
    ensures ImportEdges(fs)(current, b) ==> b in fs
  {
    var resolve := Resolver(fs.Keys, current);
    ResolvedImportsMeaning(resolve, fs[current], b);
    if ImportEdges(fs)(current, b) {
      var s :| s in fs[current] && resolve(s) == Some(b);
      ResolvedIsFile(fs.Keys, current, s);
    }
  }

  lemma PushedAll(fs: Sources, entry: Path, current: Path)
    requires current in fs && Leads(ImportEdges(fs), entry, current)
    ensures forall b :: b in ResolvedImports(Resolver(fs.Keys, current), fs[current]) <==> ImportEdges(fs)(current, b)
    ensures forall b :: b in ResolvedImports(Resolver(fs.Keys, current), fs[current]) ==>
              b in fs && Leads(ImportEdges(fs), entry, b)
  {
    forall b
      ensures b in ResolvedImports(Resolver(fs.Keys, current), fs[current]) <==> ImportEdges(fs)(current, b)
      ensures ImportEdges(fs)(current, b) ==> b in fs && Leads(ImportEdges(fs), entry, b)
    {
      PushedExactly(fs, current, b);
      if ImportEdges(fs)(current, b) {
        LeadsStep(ImportEdges(fs), entry, current, b);
      }
    }
  }

  lemma ClosedIsReachable(fs: Sources, entry: Path, closed: seq<Path>)
    requires entry in closed
    requires forall a, b :: a in closed && ImportEdges(fs)(a, b) ==> b in closed
    ensures forall p :: Reachable(fs, entry, p) ==> p in closed
  {
    var edge := ImportEdges(fs);
    forall p | Reachable(fs, entry, p) ensures p in closed {
      var chain :| IsChain(edge, chain) && chain[0] == entry && chain[|chain| - 1] == p;
      ClosedContainsChain(edge, closed, chain);
    }
  }

  /** What the worklist has established: the discovered files are distinct, everything seen is
      reachable, and every import of a discovered file is discovered or waits in the queue. */
  ghost predicate Explored(fs: Sources, entry: Path, discovered: seq<Path>, queue: seq<Path>) {
    && Distinct(discovered) && SetOf(discovered) <= fs.Keys
    && (forall p :: p in discovered || p in queue ==> Leads(ImportEdges(fs), entry, p))
    && (forall p :: p in queue ==> p in fs || p == entry)
    && (entry in discovered || entry in queue)
    && (entry in fs || (discovered == [] && queue == [entry]))
    && (forall a, b :: a in discovered && ImportEdges(fs)(a, b) ==> b in discovered || b in queue)
  }

  lemma DiscoverOne(fs: Sources, discovered: seq<Path>, current: Path)
    requires Distinct(discovered) && SetOf(discovered) <= fs.Keys && current !in discovered && current in fs
    ensures Distinct(discovered + [current]) && SetOf(discovered + [current]) <= fs.Keys
    ensures SetOf(discovered + [current]) == SetOf(discovered) + {current}
  {
  }

  lemma Discover(fs: Sources, entry: Path, discovered: seq<Path>, queue: seq<Path>, current: Path)
    requires Explored(fs, entry, discovered, queue + [current]) && current !in discovered && current in fs
    ensures Explored(fs, entry, discovered + [current],
                     queue + ResolvedImports(Resolver(fs.Keys, current), fs[current]))
    ensures SetOf(discovered + [current]) == SetOf(discovered) + {current}
  {
    assert current in queue + [current];
    PushedAll(fs, entry, current);
    DiscoverOne(fs, discovered, current);
    assert forall p :: p in queue ==> p in queue + [current];
    assert forall p :: p in queue + [current] ==> p in queue || p == current;
  }

  /** The worklist closure: it ends on every finite file set, import cycles included, and
      discovers exactly the files reachable from the entry, each once. */
  method CollectRelativeImportGraph(fs: Sources, entry: Path) returns (r: Result<seq<Path>>)
    ensures r.Ok? <==> entry in fs
    ensures r.MissingFile? ==> r.path == entry
    ensures r.Ok? ==> Distinct(r.value) && forall p :: p in r.value <==> Reachable(fs, entry, p)
    ensures r.Ok? ==> forall p :: p in r.value ==> p in fs
  {
    var discovered: seq<Path> := [];
    var queue := [entry];
    LeadsSelf(ImportEdges(fs), entry);
    while |queue| > 0
      invariant Explored(fs, entry, discovered, queue)
      decreases fs.Keys - SetOf(discovered), |queue|
    {
      var current := queue[|queue| - 1];
      ghost var before := queue;
      queue := queue[..|queue| - 1];
      assert before == queue + [current];
      if current in discovered {
        assert forall p :: p in before <==> p in queue || p == current;
        continue;
      }
      if current !in fs {
        return MissingFile(current);
      }
      Discover(fs, entry, discovered, queue, current);
      discovered := discovered + [current];
      queue := PushImports(fs.Keys, current, fs[current], queue);
    }
    ClosedIsReachable(fs, entry, discovered);
    r := Ok(discovered);
  }

  // ---------- the common ancestor ----------

  /** The number of leading segments two paths share. */
  function Common(p: Path, q: Path): (k: nat)
    ensures k <= |p| && k <= |q|
  {
    if p != [] && q != [] && p[0] == q[0] then 1 + Common(p[1..], q[1..]) else 0
  }

  lemma {:induction false} CommonIsLongest(p: Path, q: Path)
    ensures p[..Common(p, q)] == q[..Common(p, q)]
    ensures forall k :: 0 <= k <= |p| && k <= |q| && p[..k] == q[..k] ==> k <= Common(p, q)
  {
    if p != [] && q != [] && p[0] == q[0] {
      CommonIsLongest(p[1..], q[1..]);
      var k := Common(p[1..], q[1..]);
      assert p[..1 + k] == [p[0]] + p[1..][..k];
      assert q[..1 + k] == [q[0]] + q[1..][..k];
      forall j | 0 <= j <= |p| && j <= |q| && p[..j] == q[..j] ensures j <= Common(p, q) {
        if j > 0 {
          assert p[1..][..j - 1] == p[..j][1..] == q[..j][1..] == q[1..][..j - 1];
        }
      }
    } else {
      assert forall k :: 0 < k <= |p| && k <= |q| ==> p[..k][0] == p[0] && q[..k][0] == q[0];
    }
  }

  /** `path.relative`: so many `..`, then the given segments. */
  datatype RelativePath = RelativePath(ups: nat, downs: Path)

  function Relative(from: Path, to: Path): RelativePath {
    var k := Common(from, to);
    RelativePath(|from| - k, to[k..])
  }

  /** Whether the printed relative path starts with `../`; a bare `..` does not. */
  predicate StartsWithParentSlash(r: RelativePath) {
    r.ups >= 1 && r.ups + |r.downs| >= 2
  }

  ghost predicate IsAncestorOfAll(a: Path, paths: seq<Path>) {
    forall p :: p in paths ==> a <= p
  }

  ghost predicate IsLongestCommonAncestor(a: Path, paths: seq<Path>) {
    IsAncestorOfAll(a, paths) && forall b :: IsAncestorOfAll(b, paths) ==> b <= a
  }

  /** How much of `first` the loop keeps when it meets c. */
  function Kept(first: Path, c: Path): nat {
    if c < first then |c| + 1 else Common(first, c)
  }

  function KeptByAll(first: Path, rest: seq<Path>): (n: nat)
    ensures n <= |first|
  {
    if rest == [] then |first|
    else
      var n := KeptByAll(first, rest[..|rest| - 1]);
      if Kept(first, rest[|rest| - 1]) < n then Kept(first, rest[|rest| - 1]) else n
  }

  lemma CommonOfPrefix(p: Path, n: nat, q: Path)
    requires n <= |p|
    ensures Common(p[..n], q) == if n <= Common(p, q) then n else Common(p, q)
  {
    CommonIsLongest(p, q);
    CommonIsLongest(p[..n], q);
    var k, m := Common(p, q), Common(p[..n], q);
    assert p[..n][..m] == p[..m];
    var j := if n <= k then n else k;
    assert p[..n][..j] == p[..j] == p[..k][..j] == q[..k][..j] == q[..j];
  }

  lemma {:induction false} PrefixIsCommon(c: Path, p: Path)
    ensures c <= p <==> Common(p, c) == |c|
  {
    CommonIsLongest(p, c);
    assert c[..|c|] == c;
    if c <= p {
      assert p[..|c|] == c;
    }
  }

  /** One candidate of the loop: from an ancestor first[..n] it climbs to where it stops. */
  method ClimbTo(ancestor: Path, candidate: Path) returns (a: Path)
    ensures a <= ancestor
    ensures |a| == if Kept(ancestor, candidate) < |ancestor| then Kept(ancestor, candidate) else |ancestor|
  {
    a := ancestor;
    PrefixIsCommon(candidate, ancestor);
    while StartsWithParentSlash(Relative(a, candidate))
      invariant a <= ancestor
      invariant |a| >= if Kept(ancestor, candidate) < |ancestor| then Kept(ancestor, candidate) else |ancestor|
      decreases |a|
    {
      CommonOfPrefix(ancestor, |a|, candidate);
      assert ancestor[..|a|] == a;
      a := Parent(a);
    }
    CommonOfPrefix(ancestor, |a|, candidate);
    assert ancestor[..|a|] == a;
  }

  lemma KeptOfPrefix(first: Path, n: nat, c: Path)
    requires n <= |first|
    ensures (if Kept(first[..n], c) < n then Kept(first[..n], c) else n)
            == (if Kept(first, c) < n then Kept(first, c) else n)
  {
    CommonOfPrefix(first, n, c);
    PrefixIsCommon(c, first);
    PrefixIsCommon(c, first[..n]);
  }

  /** The nested loops of resolveCommonAncestor; it throws on an empty list of paths. */
  method ResolveCommonAncestor(paths: seq<Path>) returns (r: Option<Path>)
    ensures r.None? <==> paths == []
    ensures r.Some? ==> r.value == paths[0][..KeptByAll(paths[0], paths[1..])]
  {
    if paths == [] {
      return None;
    }
    var first, rest := paths[0], paths[1..];
    var ancestor := first;
    for i := 0 to |rest|
      invariant ancestor == first[..KeptByAll(first, rest[..i])]
    {
      assert rest[..i + 1][..|rest[..i + 1]| - 1] == rest[..i];
      KeptOfPrefix(first, |ancestor|, rest[i]);
      ancestor := ClimbTo(ancestor, rest[i]);
    }
    assert rest[..|rest|] == rest;
    r := Some(ancestor);
  }

  lemma {:induction false} KeptByAllIsMinimum(first: Path, rest: seq<Path>)
    ensures forall c :: c in rest ==> KeptByAll(first, rest) <= Kept(first, c)
    ensures KeptByAll(first, rest) == |first| || exists c :: c in rest && KeptByAll(first, rest) == Kept(first, c)
  {
    if rest == [] {
    } else {
      KeptByAllIsMinimum(first, rest[..|rest| - 1]);
      assert rest == rest[..|rest| - 1] + [rest[|rest| - 1]];
    }
  }

  /** No later path is a proper ancestor of the first, unless another later path leaves the
      first path at or above it without being a proper ancestor itself. */
  ghost predicate AncestorsAreCut(first: Path, rest: seq<Path>) {
    forall c :: c in rest && c < first ==>
      exists d :: d in rest && !(d < first) && Common(first, d) <= |c|
  }

  lemma CommonIsPrefix(first: Path, c: Path, n: nat)
    requires n <= Common(first, c)
    ensures first[..n] <= c
  {
    var k := Common(first, c);
    CommonIsLongest(first, c);
    assert c[..n] == c[..k][..n] == first[..k][..n] == first[..n];
  }

  lemma CutIsAbove(first: Path, rest: seq<Path>, c: Path, n: nat)
    requires AncestorsAreCut(first, rest) && c in rest && n <= |first|
    requires forall d :: d in rest ==> n <= Kept(first, d)
    ensures first[..n] <= c
  {
    PrefixIsCommon(c, first);
    if c < first {
      var d :| d in rest && !(d < first) && Common(first, d) <= |c|;
      assert n <= Kept(first, d);
    }
    CommonIsPrefix(first, c, n);
  }

  lemma CutIsDeepest(first: Path, rest: seq<Path>, b: Path, n: nat)
    requires IsAncestorOfAll(b, [first] + rest) && n <= |first|
    requires n == |first| || exists c :: c in rest && n == Kept(first, c)
    ensures b <= first[..n]
  {
    var all := [first] + rest;
    assert first in all && b <= first;
    if n < |first| {
      var c :| c in rest && n == Kept(first, c);
      assert c in all && b <= c;
      CommonIsLongest(first, c);
      assert first[..|b|] == c[..|b|];
    }
  }

  lemma CutIsLongest(first: Path, rest: seq<Path>)
    requires AncestorsAreCut(first, rest)
    ensures IsLongestCommonAncestor(first[..KeptByAll(first, rest)], [first] + rest)
  {
    var n := KeptByAll(first, rest);
    KeptByAllIsMinimum(first, rest);
    forall c | c in [first] + rest ensures first[..n] <= c {
      if c in rest {
        CutIsAbove(first, rest, c, n);
      }
    }
    forall b | IsAncestorOfAll(b, [first] + rest) ensures b <= first[..n] {
      CutIsDeepest(first, rest, b, n);
    }
  }

  /** resolveCommonAncestor returns the longest common ancestor exactly on the inputs
      that satisfy AncestorsAreCut. */
  lemma CommonAncestorCorrect(first: Path, rest: seq<Path>)
    ensures IsLongestCommonAncestor(first[..KeptByAll(first, rest)], [first] + rest) <==> AncestorsAreCut(first, rest)
  {
    var n := KeptByAll(first, rest);
    var a, all := first[..n], [first] + rest;
    KeptByAllIsMinimum(first, rest);
    if IsLongestCommonAncestor(a, all) {
      forall c | c in rest && c < first
        ensures exists d :: d in rest && !(d < first) && Common(first, d) <= |c|
      {
        assert c in all && a <= c;
        var d :| d in rest && n == Kept(first, d);
        assert d in all && a <= d;
      }
    }
    if AncestorsAreCut(first, rest) {
      CutIsLongest(first, rest);
    }
  }

  /** A directory and its parent are inputs on which it is wrong: it returns the directory. */
  lemma ParentIsMissed(parent: Path, name: string)
    ensures var first, rest := parent + [name], [parent];
            first[..KeptByAll(first, rest)] == first && !IsAncestorOfAll(first, [first] + rest)
  {
    var first, rest := parent + [name], [parent];
    assert rest[..0] == [];
    assert parent < first && Kept(first, parent) == |first|;
    assert parent in [first] + rest;
  }
}
