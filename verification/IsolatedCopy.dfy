/** Copying an import graph under a fresh directory: when do its relative imports still
    mean the same files (scripts/load-channel-config-surface.ts:50-62, 151-178)? */
module IsolatedCopy {
  import opened Text
  import opened ImportGraph

  /** Where the file p below `root` is copied to. */
  function CopyPath(root: Path, isolated: Path, p: Path): Path
    requires root <= p
  {
    isolated + p[|root|..]
  }

  /** Walking the segments from dir never leaves `root`. */
  predicate StaysInside(root: Path, dir: Path, segments: seq<string>)
    decreases segments
  {
    segments == [] ||
    (!(segments[0] == ".." && dir == root) && StaysInside(root, Step(dir, segments[0]), segments[1..]))
  }

  lemma StepInside(root: Path, isolated: Path, dir: Path, segment: string)
    requires root <= dir && !(segment == ".." && dir == root)
    ensures root <= Step(dir, segment)
    ensures Step(CopyPath(root, isolated, dir), segment) == CopyPath(root, isolated, Step(dir, segment))
  {
  }

  lemma {:induction false} WalkInside(root: Path, isolated: Path, dir: Path, segments: seq<string>)
    requires root <= dir && StaysInside(root, dir, segments)
    ensures root <= Walk(dir, segments)
    ensures Walk(CopyPath(root, isolated, dir), segments) == CopyPath(root, isolated, Walk(dir, segments))
    decreases segments
  {
    if segments == [] {
    } else {
      StepInside(root, isolated, dir, segments[0]);
      WalkInside(root, isolated, Step(dir, segments[0]), segments[1..]);
    }
  }

  /** Once outside a directory whose name does not occur in the segments, always outside. */
  lemma {:induction false} WalkStaysOutside(isolated: Path, dir: Path, segments: seq<string>)
    requires isolated != [] && BaseName(isolated) !in segments && !(isolated <= dir)
    ensures !(isolated <= Walk(dir, segments))
    decreases segments
  {
    if segments == [] {
    } else {
      WalkStaysOutside(isolated, Step(dir, segments[0]), segments[1..]);
    }
  }

  lemma {:induction false} WalkEscapes(root: Path, isolated: Path, dir: Path, segments: seq<string>)
    requires root <= dir && !StaysInside(root, dir, segments)
    requires isolated != [] && BaseName(isolated) !in segments
    ensures !(isolated <= Walk(CopyPath(root, isolated, dir), segments))
    decreases segments
  {
    if segments[0] == ".." && dir == root {
      assert CopyPath(root, isolated, dir) == isolated;
      WalkStaysOutside(isolated, Parent(isolated), segments[1..]);
    } else {
      StepInside(root, isolated, dir, segments[0]);
      WalkEscapes(root, isolated, Step(dir, segments[0]), segments[1..]);
    }
  }

  // ---------- candidates of the copy ----------

  lemma BaseNameCopied(root: Path, isolated: Path, base: Path, name: string)
    requires root < base
    ensures BaseName(CopyPath(root, isolated, base)) == BaseName(base)
    ensures root < WithBaseName(base, name)
    ensures WithBaseName(CopyPath(root, isolated, base), name) == CopyPath(root, isolated, WithBaseName(base, name))
  {
  }

  lemma AddExtensionCopied(root: Path, isolated: Path, base: Path, extensions: seq<string>)
    requires root < base
    ensures var cs, ds := AddExtension(base, extensions), AddExtension(CopyPath(root, isolated, base), extensions);
            |cs| == |ds| && forall i :: 0 <= i < |cs| ==> root < cs[i] && ds[i] == CopyPath(root, isolated, cs[i])
  {
    var cs, ds := AddExtension(base, extensions), AddExtension(CopyPath(root, isolated, base), extensions);
    forall i | 0 <= i < |cs| ensures root < cs[i] && ds[i] == CopyPath(root, isolated, cs[i]) {
      var e := extensions[i / 2];
      BaseNameCopied(root, isolated, base, BaseName(base) + e);
      assert (base + ["index" + e])[|root|..] == base[|root|..] + ["index" + e];
    }
  }

  lemma SwapExtensionCopied(root: Path, isolated: Path, base: Path, stem: string, extensions: seq<string>)
    requires root < base
    ensures var cs, ds := SwapExtension(base, stem, extensions),
            SwapExtension(CopyPath(root, isolated, base), stem, extensions);
            |cs| == |ds| && forall i :: 0 <= i < |cs| ==> root < cs[i] && ds[i] == CopyPath(root, isolated, cs[i])
  {
  }

  lemma ConsCopied(root: Path, isolated: Path, base: Path, cs: seq<Path>, ds: seq<Path>)
    requires root < base && |cs| == |ds|
    requires forall i :: 0 <= i < |cs| ==> root < cs[i] && ds[i] == CopyPath(root, isolated, cs[i])
    ensures var cs', ds' := [base] + cs, [CopyPath(root, isolated, base)] + ds;
            |cs'| == |ds'| && forall i :: 0 <= i < |cs'| ==> root < cs'[i] && ds'[i] == CopyPath(root, isolated, cs'[i])
  {
  }

  lemma CandidatesCopied(root: Path, isolated: Path, base: Path)
    requires root < base
    ensures var cs, ds := ResolveImportCandidates(base), ResolveImportCandidates(CopyPath(root, isolated, base));
            |cs| == |ds| && forall i :: 0 <= i < |cs| ==> root < cs[i] && ds[i] == CopyPath(root, isolated, cs[i])
  {
    var name, copy, extensions := BaseName(base), CopyPath(root, isolated, base), SOURCE_FILE_EXTENSIONS;
    BaseNameCopied(root, isolated, base, name);
    if Extension(name) != "" {
      var stem := name[..|name| - |Extension(name)|];
      SwapExtensionCopied(root, isolated, base, stem, extensions);
      ConsCopied(root, isolated, base, SwapExtension(base, stem, extensions), SwapExtension(copy, stem, extensions));
    } else {
      AddExtensionCopied(root, isolated, base, extensions);
      ConsCopied(root, isolated, base, AddExtension(base, extensions), AddExtension(copy, extensions));
    }
  }

  lemma AddExtensionShape(base: Path, extensions: seq<string>, c: Path)
    requires c in AddExtension(base, extensions)
    ensures exists e :: e in extensions && (c == WithBaseName(base, BaseName(base) + e) || c == base + ["index" + e])
  {
  }

  /** A candidate strictly below a directory comes from a base inside that directory. */
  lemma CandidateBelow(dir: Path, base: Path, c: Path)
    requires c in ResolveImportCandidates(base) && dir < c
    ensures dir <= base
    ensures Extension(BaseName(base)) != "" ==> dir < base
  {
    if c in AddExtension(base, SOURCE_FILE_EXTENSIONS) {
      AddExtensionShape(base, SOURCE_FILE_EXTENSIONS, c);
    }
    assert forall name: string {:trigger WithBaseName(base, name)} ::
        dir < WithBaseName(base, name) ==> dir <= Parent(base) by {
      forall name: string | dir < WithBaseName(base, name) ensures dir <= Parent(base) {
        assert WithBaseName(base, name)[..|Parent(base)|] == Parent(base);
      }
    }
  }

  // ---------- the copied file system ----------

  /** What `mkdtemp` gives: a directory nothing lives in yet, with no file beside it that
      an import of the directory itself would try first. */
  ghost predicate IsFresh(files: set<Path>, isolated: Path) {
    && isolated != []
    && (forall f :: f in files ==> !(isolated <= f))
    && (forall e :: e in SOURCE_FILE_EXTENSIONS ==> WithBaseName(isolated, BaseName(isolated) + e) !in files)
  }

  /** `copied` is fs with every file of the graph copied below `isolated`, text unchanged. */
  ghost predicate IsCopyOf(fs: Sources, graph: seq<Path>, root: Path, isolated: Path, copied: Sources) {
    && (forall p :: p in graph ==> p in fs && root < p)
    && (forall p :: p in fs ==> p in copied && copied[p] == fs[p])
    && (forall p :: p in graph ==>
          CopyPath(root, isolated, p) in copied && copied[CopyPath(root, isolated, p)] == fs[p])
    && (forall q :: q in copied && q !in fs ==> exists p :: p in graph && q == CopyPath(root, isolated, p))
  }

  lemma CopyPathInjective(root: Path, isolated: Path, p: Path, q: Path)
    requires root <= p && root <= q
    ensures CopyPath(root, isolated, p) == CopyPath(root, isolated, q) <==> p == q
    ensures isolated <= CopyPath(root, isolated, p)
  {
    if CopyPath(root, isolated, p) == CopyPath(root, isolated, q) {
      assert CopyPath(root, isolated, p)[|isolated|..] == p[|root|..];
      assert CopyPath(root, isolated, q)[|isolated|..] == q[|root|..];
      assert p == root + p[|root|..] && q == root + q[|root|..];
    }
  }

  /** Below the isolated directory exactly the copies of graph files exist. */
  lemma CopiedFileIff(fs: Sources, graph: seq<Path>, root: Path, isolated: Path, copied: Sources, c: Path)
    requires IsFresh(fs.Keys, isolated) && IsCopyOf(fs, graph, root, isolated, copied) && root <= c
    ensures CopyPath(root, isolated, c) in copied <==> c in graph
  {
    var d := CopyPath(root, isolated, c);
    CopyPathInjective(root, isolated, c, c);
    if d in copied {
      assert d !in fs;
      var p :| p in graph && d == CopyPath(root, isolated, p);
      CopyPathInjective(root, isolated, c, p);
    }
  }

  lemma {:induction false} FirstFileIs(files: set<Path>, cs: seq<Path>, i: nat)
    requires i < |cs| && cs[i] in files
    requires forall k :: 0 <= k < i ==> cs[k] !in files
    ensures FirstFile(files, cs) == Some(cs[i])
  {
    if i == 0 {
    } else {
      assert cs[0] !in files;
      FirstFileIs(files, cs[1..], i - 1);
    }
  }

  lemma {:induction false} NoFirstFile(files: set<Path>, cs: seq<Path>)
    requires forall c :: c in cs ==> c !in files
    ensures FirstFile(files, cs) == None
  {
    if cs == [] {
    } else {
      assert cs[0] in cs;
      NoFirstFile(files, cs[1..]);
    }
  }

  /** The copy of an optional path. */
  function CopyOption(root: Path, isolated: Path, p: Option<Path>): Option<Path>
    requires p.Some? ==> root <= p.value
  {
    match p
    case None => None
    case Some(q) => Some(CopyPath(root, isolated, q))
  }

  /** Two candidates that are found or missed together: the second is the copy of the
      first, or it is absent and the first is not the file the search finds. */
  ghost predicate Corresponds(root: Path, isolated: Path, copied: Sources, found: Option<Path>, c: Path, d: Path) {
    (root < c && d == CopyPath(root, isolated, c)) || (d !in copied && found != Some(c))
  }

  lemma SearchCopied(fs: Sources, graph: seq<Path>, root: Path, isolated: Path, copied: Sources,
                     cs: seq<Path>, ds: seq<Path>)
    requires IsFresh(fs.Keys, isolated) && IsCopyOf(fs, graph, root, isolated, copied)
    requires |cs| == |ds|
    requires forall i :: 0 <= i < |cs| ==> Corresponds(root, isolated, copied, FirstFile(fs.Keys, cs), cs[i], ds[i])
    requires FirstFile(fs.Keys, cs).Some? ==> FirstFile(fs.Keys, cs).value in graph
    ensures FirstFile(copied.Keys, ds) == CopyOption(root, isolated, FirstFile(fs.Keys, cs))
  {
    FirstFileMeaning(fs.Keys, cs);
    forall i | 0 <= i < |cs| ensures ds[i] in copied ==> cs[i] in graph {
      if ds[i] in copied {
        CopiedFileIff(fs, graph, root, isolated, copied, cs[i]);
      }
    }
    if FirstFile(fs.Keys, cs).Some? {
      var i :| 0 <= i < |cs| && cs[i] == FirstFile(fs.Keys, cs).value && cs[i] in fs
               && forall k :: 0 <= k < i ==> cs[k] !in fs;
      assert Corresponds(root, isolated, copied, FirstFile(fs.Keys, cs), cs[i], ds[i]);
      CopiedFileIff(fs, graph, root, isolated, copied, cs[i]);
      FirstFileIs(copied.Keys, ds, i);
    } else {
      forall d | d in ds ensures d !in copied {
        var i :| 0 <= i < |ds| && ds[i] == d;
        assert cs[i] in cs;
      }
      NoFirstFile(copied.Keys, ds);
    }
  }

  predicate IsIndexOf(dir: Path, p: Path) {
    exists e :: e in SOURCE_FILE_EXTENSIONS && p == dir + ["index" + e]
  }

  lemma NotBelowIsNotCopied(fs: Sources, graph: seq<Path>, root: Path, isolated: Path, copied: Sources, d: Path)
    requires IsFresh(fs.Keys, isolated) && IsCopyOf(fs, graph, root, isolated, copied)
    requires d !in fs && !(isolated < d)
    ensures d !in copied
  {
  }

  lemma SiblingIsNoIndex(root: Path, e: string)
    requires e in SOURCE_FILE_EXTENSIONS
    ensures !IsIndexOf(root, WithBaseName(root, BaseName(root) + e))
  {
    assert e[0] == '.';
    var c := WithBaseName(root, BaseName(root) + e);
    forall f | f in SOURCE_FILE_EXTENSIONS ensures c != root + ["index" + f] {
      if root == [] {
        assert c[0][0] == '.' && ("index" + f)[0] == 'i';
      }
    }
  }

  /** An import of `root` itself corresponds candidate by candidate when neither directory
      name has an extension and the file found, if any, is an index file. */
  lemma AddExtensionAtRoot(fs: Sources, graph: seq<Path>, root: Path, isolated: Path,
                           copied: Sources, found: Option<Path>, extensions: seq<string>)
    requires IsFresh(fs.Keys, isolated) && IsCopyOf(fs, graph, root, isolated, copied)
    requires forall e :: e in extensions ==> e in SOURCE_FILE_EXTENSIONS
    requires found.Some? ==> IsIndexOf(root, found.value)
    ensures var cs, ds := AddExtension(root, extensions), AddExtension(isolated, extensions);
            |cs| == |ds| && forall i :: 0 <= i < |cs| ==> Corresponds(root, isolated, copied, found, cs[i], ds[i])
  {
    var cs, ds := AddExtension(root, extensions), AddExtension(isolated, extensions);
    forall i | 0 <= i < |cs| ensures Corresponds(root, isolated, copied, found, cs[i], ds[i]) {
      var e := extensions[i / 2];
      assert e in extensions;
      SiblingIsNoIndex(root, e);
      NotBelowIsNotCopied(fs, graph, root, isolated, copied, WithBaseName(isolated, BaseName(isolated) + e));
      assert (root + ["index" + e])[|root|..] == ["index" + e];
    }
  }

  lemma ConsCorresponds(root: Path, isolated: Path, copied: Sources, found: Option<Path>, c: Path, d: Path,
                        cs: seq<Path>, ds: seq<Path>)
    requires Corresponds(root, isolated, copied, found, c, d) && |cs| == |ds|
    requires forall i :: 0 <= i < |cs| ==> Corresponds(root, isolated, copied, found, cs[i], ds[i])
    ensures forall i :: 0 <= i < |[c] + cs| ==> Corresponds(root, isolated, copied, found, ([c] + cs)[i], ([d] + ds)[i])
  {
  }

  lemma RootCandidatesCorrespond(fs: Sources, graph: seq<Path>, root: Path, isolated: Path, copied: Sources,
                                 found: Option<Path>)
    requires IsFresh(fs.Keys, isolated) && IsCopyOf(fs, graph, root, isolated, copied)
    requires Extension(BaseName(root)) == "" && Extension(BaseName(isolated)) == ""
    requires found != Some(root) && (found.Some? ==> IsIndexOf(root, found.value))
    ensures var cs, ds := ResolveImportCandidates(root), ResolveImportCandidates(isolated);
            |cs| == |ds| && forall i :: 0 <= i < |cs| ==> Corresponds(root, isolated, copied, found, cs[i], ds[i])
  {
    var extensions := SOURCE_FILE_EXTENSIONS;
    NotBelowIsNotCopied(fs, graph, root, isolated, copied, isolated);
    AddExtensionAtRoot(fs, graph, root, isolated, copied, found, extensions);
    ConsCorresponds(root, isolated, copied, found, root, isolated, AddExtension(root, extensions),
      AddExtension(isolated, extensions));
  }

  lemma CandidatesCorrespond(fs: Sources, graph: seq<Path>, root: Path, isolated: Path, copied: Sources,
                             base: Path, found: Option<Path>)
    requires IsFresh(fs.Keys, isolated) && IsCopyOf(fs, graph, root, isolated, copied)
    requires root <= base
    requires base == root ==> Extension(BaseName(root)) == "" && Extension(BaseName(isolated)) == ""
                              && found != Some(root) && (found.Some? ==> IsIndexOf(root, found.value))
    ensures var cs, ds := ResolveImportCandidates(base), ResolveImportCandidates(CopyPath(root, isolated, base));
            |cs| == |ds| && forall i :: 0 <= i < |cs| ==> Corresponds(root, isolated, copied, found, cs[i], ds[i])
  {
    if root < base {
      CandidatesCopied(root, isolated, base);
    } else {
      assert base == root && CopyPath(root, isolated, base) == isolated;
      RootCandidatesCorrespond(fs, graph, root, isolated, copied, found);
    }
  }

  // ---------- when an import survives the copy ----------

  /** The specifier never climbs above `root`; where it names `root` itself, neither
      directory name has an extension and what it finds, if anything, is an index file. */
  predicate IsTame(files: set<Path>, root: Path, isolated: Path, a: Path, specifier: string) {
    && StaysInside(root, Parent(a), Split(specifier))
    && (ImportBase(a, specifier) == root ==>
          && Extension(BaseName(root)) == "" && Extension(BaseName(isolated)) == ""
          && var r := ResolveRelativeImportPath(files, a, specifier);
             r.Some? ==> IsIndexOf(root, r.value))
  }

  lemma CopyBase(root: Path, isolated: Path, a: Path, specifier: string)
    requires root < a && StaysInside(root, Parent(a), Split(specifier))
    ensures root <= ImportBase(a, specifier)
    ensures ImportBase(CopyPath(root, isolated, a), specifier) == CopyPath(root, isolated, ImportBase(a, specifier))
  {
    var copy := CopyPath(root, isolated, a);
    assert copy[..|copy| - 1] == isolated + a[..|a| - 1][|root|..];
    WalkInside(root, isolated, Parent(a), Split(specifier));
  }

  /** A tame import, resolved or not, means the same from the copy as from the original. */
  lemma TameImportCopied(fs: Sources, graph: seq<Path>, root: Path, isolated: Path, copied: Sources,
                         a: Path, specifier: string)
    requires IsFresh(fs.Keys, isolated) && IsCopyOf(fs, graph, root, isolated, copied)
    requires a in graph && IsTame(fs.Keys, root, isolated, a, specifier)
    requires ResolveRelativeImportPath(fs.Keys, a, specifier).Some?
             ==> ResolveRelativeImportPath(fs.Keys, a, specifier).value in graph
    ensures ResolveRelativeImportPath(copied.Keys, CopyPath(root, isolated, a), specifier)
            == CopyOption(root, isolated, ResolveRelativeImportPath(fs.Keys, a, specifier))
  {
    CopyBase(root, isolated, a, specifier);
    var base, found := ImportBase(a, specifier), ResolveRelativeImportPath(fs.Keys, a, specifier);
    CandidatesCorrespond(fs, graph, root, isolated, copied, base, found);
    SearchCopied(fs, graph, root, isolated, copied,
                 ResolveImportCandidates(base), ResolveImportCandidates(CopyPath(root, isolated, base)));
  }

  lemma RootImportIsIndex(root: Path, isolated: Path, b: Path)
    requires root < b && b in ResolveImportCandidates(root)
    requires isolated != [] && CopyPath(root, isolated, b) in ResolveImportCandidates(isolated)
    ensures Extension(BaseName(root)) == "" && Extension(BaseName(isolated)) == "" && IsIndexOf(root, b)
  {
    var d := CopyPath(root, isolated, b);
    CandidateBelow(root, root, b);
    CandidateBelow(isolated, isolated, d);
    AddExtensionShape(isolated, SOURCE_FILE_EXTENSIONS, d);
    var e :| e in SOURCE_FILE_EXTENSIONS
        && (d == WithBaseName(isolated, BaseName(isolated) + e) || d == isolated + ["index" + e]);
    assert d == isolated + ["index" + e];
    assert b == root + b[|root|..] && b[|root|..] == d[|isolated|..] == ["index" + e];
  }

  /** A file found strictly below a directory was looked for from inside that directory. */
  lemma FoundBelow(files: set<Path>, a: Path, specifier: string, dir: Path, b: Path)
    requires ResolveRelativeImportPath(files, a, specifier) == Some(b) && dir < b
    ensures dir <= ImportBase(a, specifier) && b in ResolveImportCandidates(ImportBase(a, specifier))
  {
    FirstFileMeaning(files, ResolveImportCandidates(ImportBase(a, specifier)));
    CandidateBelow(dir, ImportBase(a, specifier), b);
  }

  lemma CopyEscapes(root: Path, isolated: Path, a: Path, specifier: string)
    requires root < a && isolated != [] && BaseName(isolated) !in Split(specifier)
    requires isolated <= ImportBase(CopyPath(root, isolated, a), specifier)
    ensures StaysInside(root, Parent(a), Split(specifier))
  {
    var copy := CopyPath(root, isolated, a);
    assert Parent(copy) == CopyPath(root, isolated, Parent(a)) by {
      assert copy[..|copy| - 1] == isolated + a[..|a| - 1][|root|..];
    }
    if !StaysInside(root, Parent(a), Split(specifier)) {
      WalkEscapes(root, isolated, Parent(a), Split(specifier));
    }
  }

  lemma KeptImportIsTame(fs: Sources, graph: seq<Path>, root: Path, isolated: Path, copied: Sources,
                         a: Path, specifier: string, b: Path)
    requires IsFresh(fs.Keys, isolated) && IsCopyOf(fs, graph, root, isolated, copied)
    requires BaseName(isolated) !in Split(specifier)
    requires a in graph && b in graph && ResolveRelativeImportPath(fs.Keys, a, specifier) == Some(b)
    requires ResolveRelativeImportPath(copied.Keys, CopyPath(root, isolated, a), specifier)
             == Some(CopyPath(root, isolated, b))
    ensures IsTame(fs.Keys, root, isolated, a, specifier)
  {
    var copy := CopyPath(root, isolated, a);
    FoundBelow(fs.Keys, a, specifier, root, b);
    FoundBelow(copied.Keys, copy, specifier, isolated, CopyPath(root, isolated, b));
    CopyEscapes(root, isolated, a, specifier);
    CopyBase(root, isolated, a, specifier);
    if ImportBase(a, specifier) == root {
      assert CopyPath(root, isolated, root) == isolated;
      RootImportIsIndex(root, isolated, b);
    }
  }

  /** An import of a graph file is kept by the copy exactly when it is tame, provided the
      random name of the isolated directory is not itself written in the specifier. */
  lemma ImportKeptIff(fs: Sources, graph: seq<Path>, root: Path, isolated: Path, copied: Sources,
                      a: Path, specifier: string, b: Path)
    requires IsFresh(fs.Keys, isolated) && IsCopyOf(fs, graph, root, isolated, copied)
    requires BaseName(isolated) !in Split(specifier)
    requires a in graph && b in graph && ResolveRelativeImportPath(fs.Keys, a, specifier) == Some(b)
    ensures ResolveRelativeImportPath(copied.Keys, CopyPath(root, isolated, a), specifier)
            == Some(CopyPath(root, isolated, b))
            <==> IsTame(fs.Keys, root, isolated, a, specifier)
  {
    var resolved := ResolveRelativeImportPath(copied.Keys, CopyPath(root, isolated, a), specifier);
    if resolved == Some(CopyPath(root, isolated, b)) {
      KeptImportIsTame(fs, graph, root, isolated, copied, a, specifier, b);
    } else if IsTame(fs.Keys, root, isolated, a, specifier) {
      TameImportCopied(fs, graph, root, isolated, copied, a, specifier);
    }
  }

  /** The name mkdtemp makes from a package name has an extension exactly when the package
      name has a dot after its first character. */
  lemma {:induction false} IsolatedNameExtension(name: string, suffix: string)
    requires '.' !in suffix
    ensures Extension(name + "-" + suffix) == "" <==> LastDot(name) <= 0
  {
    LastDotSkips(name, "-" + suffix);
    assert name + "-" + suffix == name + ("-" + suffix);
    LastDotRange(name);
  }

  // ---------- the whole copy ----------

  ghost predicate AllTame(fs: Sources, graph: seq<Path>, root: Path, isolated: Path) {
    forall a, s :: a in graph && a in fs && s in fs[a] && IsRelative(s) ==> IsTame(fs.Keys, root, isolated, a, s)
  }

  ghost predicate IsGraphFrom(fs: Sources, entry: Path, graph: seq<Path>) {
    (forall p :: p in graph ==> p in fs) && forall p :: p in graph <==> Reachable(fs, entry, p)
  }

  lemma CopiedResolver(fs: Sources, entry: Path, graph: seq<Path>, root: Path, isolated: Path, copied: Sources,
                       a: Path, s: string)
    requires IsFresh(fs.Keys, isolated) && IsCopyOf(fs, graph, root, isolated, copied)
    requires IsGraphFrom(fs, entry, graph) && AllTame(fs, graph, root, isolated) && a in graph && s in fs[a]
    ensures Resolver(fs.Keys, a)(s).Some? ==> Resolver(fs.Keys, a)(s).value in graph
    ensures Resolver(copied.Keys, CopyPath(root, isolated, a))(s) == CopyOption(root, isolated, Resolver(fs.Keys, a)(s))
  {
    var r := Resolver(fs.Keys, a)(s);
    if r.Some? {
      assert Imports(fs, a, r.value);
      LeadsStep(ImportEdges(fs), entry, a, r.value);
    }
    if IsRelative(s) {
      TameImportCopied(fs, graph, root, isolated, copied, a, s);
    }
  }

  lemma CopiedImports(fs: Sources, entry: Path, graph: seq<Path>, root: Path, isolated: Path, copied: Sources,
                      a: Path, q: Path)
    requires IsFresh(fs.Keys, isolated) && IsCopyOf(fs, graph, root, isolated, copied)
    requires IsGraphFrom(fs, entry, graph) && AllTame(fs, graph, root, isolated) && a in graph
    ensures Imports(copied, CopyPath(root, isolated, a), q)
            <==> exists b :: b in graph && Imports(fs, a, b) && q == CopyPath(root, isolated, b)
  {
    var copy := CopyPath(root, isolated, a);
    var resolve, resolve' := Resolver(fs.Keys, a), Resolver(copied.Keys, copy);
    forall s | s in fs[a]
      ensures resolve(s).Some? ==> resolve(s).value in graph
      ensures resolve'(s) == CopyOption(root, isolated, resolve(s))
    {
      CopiedResolver(fs, entry, graph, root, isolated, copied, a, s);
    }
  }

  lemma {:induction false} CopiedChainEnds(fs: Sources, entry: Path, graph: seq<Path>, root: Path, isolated: Path,
                                           copied: Sources, chain: seq<Path>)
    requires IsFresh(fs.Keys, isolated) && IsCopyOf(fs, graph, root, isolated, copied)
    requires IsGraphFrom(fs, entry, graph) && AllTame(fs, graph, root, isolated) && entry in graph
    requires IsChain(ImportEdges(copied), chain) && chain[0] == CopyPath(root, isolated, entry)
    ensures exists p :: p in graph && chain[|chain| - 1] == CopyPath(root, isolated, p)
  {
    if |chain| <= 1 {
    } else {
      var init := chain[..|chain| - 1];
      CopiedChainEnds(fs, entry, graph, root, isolated, copied, init);
      var p :| p in graph && init[|init| - 1] == CopyPath(root, isolated, p);
      assert ImportEdges(copied)(chain[|chain| - 2], chain[|chain| - 1]);
      CopiedImports(fs, entry, graph, root, isolated, copied, p, chain[|chain| - 1]);
    }
  }

  lemma CopiedEdge(fs: Sources, entry: Path, graph: seq<Path>, root: Path, isolated: Path, copied: Sources,
                   p: Path, q: Path)
    requires IsFresh(fs.Keys, isolated) && IsCopyOf(fs, graph, root, isolated, copied)
    requires IsGraphFrom(fs, entry, graph) && AllTame(fs, graph, root, isolated)
    requires p in graph && q in graph && ImportEdges(fs)(p, q)
    ensures ImportEdges(copied)(CopyPath(root, isolated, p), CopyPath(root, isolated, q))
  {
    CopiedImports(fs, entry, graph, root, isolated, copied, p, CopyPath(root, isolated, q));
  }

  lemma ChainStaysInGraph(fs: Sources, entry: Path, graph: seq<Path>, chain: seq<Path>)
    requires IsGraphFrom(fs, entry, graph) && IsChain(ImportEdges(fs), chain) && chain[0] == entry
    ensures chain[|chain| - 1] in graph
  {
  }

  lemma {:induction false} CopiedChainReaches(fs: Sources, entry: Path, graph: seq<Path>, root: Path, isolated: Path,
                                              copied: Sources, chain: seq<Path>)
    requires IsFresh(fs.Keys, isolated) && IsCopyOf(fs, graph, root, isolated, copied)
    requires IsGraphFrom(fs, entry, graph) && AllTame(fs, graph, root, isolated) && entry in graph
    requires IsChain(ImportEdges(fs), chain) && chain[0] == entry
    ensures chain[|chain| - 1] in graph
    ensures Reachable(copied, CopyPath(root, isolated, entry), CopyPath(root, isolated, chain[|chain| - 1]))
  {
    var last, copy := chain[|chain| - 1], CopyPath(root, isolated, entry);
    ChainStaysInGraph(fs, entry, graph, chain);
    if |chain| == 1 {
      LeadsSelf(ImportEdges(copied), copy);
    } else {
      var init := chain[..|chain| - 1];
      var p := init[|init| - 1];
      CopiedChainReaches(fs, entry, graph, root, isolated, copied, init);
      assert ImportEdges(fs)(chain[|chain| - 2], chain[|chain| - 1]);
      CopiedEdge(fs, entry, graph, root, isolated, copied, p, last);
      LeadsStep(ImportEdges(copied), copy, CopyPath(root, isolated, p), CopyPath(root, isolated, last));
    }
  }

  /** Loading the copied entry reaches exactly the copies of what the original reaches. */
  lemma CopyPreservesGraph(fs: Sources, entry: Path, graph: seq<Path>, root: Path, isolated: Path, copied: Sources,
                           q: Path)
    requires IsFresh(fs.Keys, isolated) && IsCopyOf(fs, graph, root, isolated, copied)
    requires IsGraphFrom(fs, entry, graph) && AllTame(fs, graph, root, isolated) && entry in graph
    ensures Reachable(copied, CopyPath(root, isolated, entry), q)
            <==> exists p :: p in graph && q == CopyPath(root, isolated, p)
  {
    if Reachable(copied, CopyPath(root, isolated, entry), q) {
      var chain :| IsChain(ImportEdges(copied), chain) && chain[0] == CopyPath(root, isolated, entry)
          && chain[|chain| - 1] == q;
      CopiedChainEnds(fs, entry, graph, root, isolated, copied, chain);
    }
    if p :| p in graph && q == CopyPath(root, isolated, p) {
      assert Reachable(fs, entry, p);
      var chain :| IsChain(ImportEdges(fs), chain) && chain[0] == entry && chain[|chain| - 1] == p;
      CopiedChainReaches(fs, entry, graph, root, isolated, copied, chain);
    }
  }

  // ---------- the program ----------

  /** No regular file is a directory above another one. */
  ghost predicate IsFileTree(files: set<Path>) {
    forall p, q :: p in files && q in files ==> !(p < q)
  }

  const PACKAGE_JSON: string := "package.json"

  /** The nearest directory at or above the module's own that holds a package.json. */
  method ResolvePackageRoot(files: set<Path>, modulePath: Path) returns (r: Option<Path>)
    ensures r.Some? ==> r.value <= Parent(modulePath) && r.value + ["package.json"] in files
    ensures r.Some? ==> forall d :: r.value < d <= Parent(modulePath) ==> d + ["package.json"] !in files
    ensures r.None? ==> forall d :: d <= Parent(modulePath) ==> d + ["package.json"] !in files
  {
    var cursor := Parent(modulePath);
    while true
      invariant cursor <= Parent(modulePath)
      invariant forall d :: cursor < d <= Parent(modulePath) ==> d + [PACKAGE_JSON] !in files
      decreases |cursor|
    {
      if cursor + [PACKAGE_JSON] in files {
        return Some(cursor);
      }
      if Parent(cursor) == cursor {
        return None;
      }
      forall d | Parent(cursor) < d <= Parent(modulePath) ensures d + [PACKAGE_JSON] !in files {
        assert d == cursor || cursor < d;
      }
      cursor := Parent(cursor);
    }
  }

  ghost predicate IsNearestPackage(files: set<Path>, modulePath: Path, packageRoot: Path) {
    && packageRoot <= Parent(modulePath) && packageRoot + ["package.json"] in files
    && forall d :: packageRoot < d <= Parent(modulePath) ==> d + ["package.json"] !in files
  }

  /** From the copied module exactly the copies of the graph are reached. */
  ghost predicate ReachesCopies(copied: Sources, copiedModule: Path, root: Path, isolated: Path, graph: seq<Path>) {
    forall q :: Reachable(copied, copiedModule, q)
           <==> exists p :: p in graph && root <= p && q == CopyPath(root, isolated, p)
  }

  lemma CopyReachesCopies(fs: Sources, entry: Path, graph: seq<Path>, root: Path, isolated: Path, copied: Sources)
    requires IsFresh(fs.Keys, isolated) && IsCopyOf(fs, graph, root, isolated, copied)
    requires IsGraphFrom(fs, entry, graph) && entry in graph
    ensures AllTame(fs, graph, root, isolated) ==>
              ReachesCopies(copied, CopyPath(root, isolated, entry), root, isolated, graph)
  {
    if AllTame(fs, graph, root, isolated) {
      forall q
        ensures Reachable(copied, CopyPath(root, isolated, entry), q)
                <==> exists p :: p in graph && root <= p && q == CopyPath(root, isolated, p)
      {
        CopyPreservesGraph(fs, entry, graph, root, isolated, copied, q);
      }
    }
  }

  datatype CopyError = NoPackageRoot | NoSuchModule

  datatype Outcome =
    | Copied(root: Path, graph: seq<Path>, sources: Sources, modulePath: Path)
    | Failed(error: CopyError)

  lemma FilesAreBelowRoot(fs: Sources, packageRoot: Path, graph: seq<Path>)
    requires IsFileTree(fs.Keys) && packageRoot + [PACKAGE_JSON] in fs
    requires forall p :: p in graph ==> p in fs
    ensures AncestorsAreCut(packageRoot, graph)
    ensures var root := packageRoot[..KeptByAll(packageRoot, graph)];
            IsLongestCommonAncestor(root, [packageRoot] + graph) && forall p :: p in graph ==> root < p
  {
    forall p | p in graph ensures !(p <= packageRoot) {
      assert p <= packageRoot ==> p < packageRoot + [PACKAGE_JSON];
    }
    CommonAncestorCorrect(packageRoot, graph);
    var root := packageRoot[..KeptByAll(packageRoot, graph)];
    forall p | p in graph ensures root < p {
      assert p in [packageRoot] + graph && root <= p && root <= packageRoot;
    }
  }

  lemma OneMoreCopied(fs: Sources, done: seq<Path>, next: Path, root: Path, isolated: Path, copied: Sources)
    requires IsFresh(fs.Keys, isolated) && IsCopyOf(fs, done, root, isolated, copied)
    requires next in fs && root < next
    ensures IsCopyOf(fs, done + [next], root, isolated, copied[CopyPath(root, isolated, next) := fs[next]])
  {
    var target := CopyPath(root, isolated, next);
    var copied' := copied[target := fs[next]];
    CopyPathInjective(root, isolated, next, next);
    assert target !in fs;
    forall p | p in done ensures copied'[CopyPath(root, isolated, p)] == fs[p] {
      CopyPathInjective(root, isolated, p, next);
    }
    forall q | q in copied' && q !in fs
      ensures exists p :: p in done + [next] && q == CopyPath(root, isolated, p)
    {
      if q == target {
        assert next in done + [next];
      } else {
        var p :| p in done && q == CopyPath(root, isolated, p);
        assert p in done + [next];
      }
    }
  }

  /** The loop that copies every file of the graph to its target. */
  method CopyFiles(fs: Sources, files: seq<Path>, root: Path, isolated: Path) returns (copied: Sources)
    requires IsFresh(fs.Keys, isolated)
    requires forall p :: p in files ==> p in fs && root < p
    ensures IsCopyOf(fs, files, root, isolated, copied)
  {
    copied := fs;
    for i := 0 to |files|
      invariant IsCopyOf(fs, files[..i], root, isolated, copied)
    {
      assert files[i] in files && files[..i + 1] == files[..i] + [files[i]];
      OneMoreCopied(fs, files[..i], files[i], root, isolated, copied);
      copied := copied[CopyPath(root, isolated, files[i]) := fs[files[i]]];
    }
    assert files[..|files|] == files;
  }

  /** copyModuleImportGraphWithoutNodeModules, with the directory mkdtemp made given. */
  method CopyModuleImportGraph(fs: Sources, modulePath: Path, isolated: Path) returns (r: Outcome)
    requires IsFileTree(fs.Keys) && IsFresh(fs.Keys, isolated)
    ensures r.Failed? && r.error == NoPackageRoot
            <==> forall d :: d <= Parent(modulePath) ==> d + ["package.json"] !in fs
    ensures r.Failed? && r.error == NoSuchModule ==> modulePath !in fs
    ensures r.Copied? ==> modulePath in r.graph && IsGraphFrom(fs, modulePath, r.graph)
    ensures r.Copied? ==> IsCopyOf(fs, r.graph, r.root, isolated, r.sources)
    ensures r.Copied? ==> exists packageRoot :: IsNearestPackage(fs.Keys, modulePath, packageRoot)
                            && IsLongestCommonAncestor(r.root, [packageRoot] + r.graph)
    ensures r.Copied? ==> r.modulePath == CopyPath(r.root, isolated, modulePath)
    ensures r.Copied? && AllTame(fs, r.graph, r.root, isolated) ==>
              ReachesCopies(r.sources, r.modulePath, r.root, isolated, r.graph)
  {
    var packageRoot := ResolvePackageRoot(fs.Keys, modulePath);
    if packageRoot.None? {
      return Failed(NoPackageRoot);
    }
    assert IsNearestPackage(fs.Keys, modulePath, packageRoot.value);
    var graph := CollectRelativeImportGraph(fs, modulePath);
    if graph.MissingFile? {
      return Failed(NoSuchModule);
    }
    var files := graph.value;
    LeadsSelf(ImportEdges(fs), modulePath);
    FilesAreBelowRoot(fs, packageRoot.value, files);
    var ancestor := ResolveCommonAncestor([packageRoot.value] + files);
    var root := ancestor.value;
    assert ([packageRoot.value] + files)[1..] == files;
    var sources := CopyFiles(fs, files, root, isolated);
    CopyReachesCopies(fs, modulePath, files, root, isolated, sources);
    r := Copied(root, files, sources, CopyPath(root, isolated, modulePath));
  }
}
