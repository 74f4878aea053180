/** Two file systems whose isolated copy loses an import (scripts/load-channel-config-surface.ts:75-101,
    151-178): the specifier climbs above the copied root and comes back, or it names the root itself. */
module IsolatedCopyLosses {
  import opened Text
  import opened ImportGraph
  import opened ImportMeaning
  import opened IsolatedCopy

  /** The copy of a graph of two files. */
  function CopyOfTwo(fs: Sources, root: Path, isolated: Path, a: Path, b: Path): Sources
    requires a in fs && b in fs && root < a && root < b
  {
    fs[CopyPath(root, isolated, a) := fs[a]][CopyPath(root, isolated, b) := fs[b]]
  }

  lemma CopyOfTwoIs(fs: Sources, root: Path, isolated: Path, a: Path, b: Path)
    requires a in fs && b in fs && a != b && root < a && root < b && IsFresh(fs.Keys, isolated)
    ensures IsCopyOf(fs, [a, b], root, isolated, CopyOfTwo(fs, root, isolated, a, b))
  {
    CopyPathInjective(root, isolated, a, b);
    CopyPathInjective(root, isolated, b, a);
    assert CopyPath(root, isolated, a) !in fs && CopyPath(root, isolated, b) !in fs;
  }

  /** The hypotheses of ImportKeptIff, with the two files as the whole graph of the first, and that
      the import is lost all the same. */
  ghost predicate IsLost(fs: Sources, root: Path, isolated: Path, a: Path, b: Path, specifier: string)
    requires a in fs && b in fs && root < a && root < b
  {
    var copied := CopyOfTwo(fs, root, isolated, a, b);
    && IsGraphFrom(fs, a, [a, b])
    && IsFresh(fs.Keys, isolated) && IsCopyOf(fs, [a, b], root, isolated, copied)
    && BaseName(isolated) !in Split(specifier)
    && ResolveRelativeImportPath(fs.Keys, a, specifier) == Some(b)
    && ResolveRelativeImportPath(copied.Keys, CopyPath(root, isolated, a), specifier)
       != Some(CopyPath(root, isolated, b))
  }

  lemma OnlyEdge(fs: Sources, a: Path, b: Path, specifier: string, x: Path, y: Path)
    requires a in fs && b in fs && fs[a] == [specifier] && IsRelative(specifier) && fs[b] == []
    requires ResolveRelativeImportPath(fs.Keys, a, specifier) == Some(b)
    requires (x == a || x == b) && ImportEdges(fs)(x, y)
    ensures y == b
  {
    var s :| s in fs[x] && Resolver(fs.Keys, x)(s) == Some(y);
    assert s == specifier;
  }

  lemma BothReached(fs: Sources, a: Path, b: Path, specifier: string)
    requires a in fs && b in fs && fs[a] == [specifier] && IsRelative(specifier)
    requires ResolveRelativeImportPath(fs.Keys, a, specifier) == Some(b)
    ensures Reachable(fs, a, a) && Reachable(fs, a, b)
  {
    assert specifier in fs[a] && ImportEdges(fs)(a, b);
    LeadsSelf(ImportEdges(fs), a);
    LeadsStep(ImportEdges(fs), a, a, b);
  }

  lemma OnlyBothReached(fs: Sources, a: Path, b: Path, specifier: string)
    requires a in fs && b in fs && fs[a] == [specifier] && IsRelative(specifier) && fs[b] == []
    requires ResolveRelativeImportPath(fs.Keys, a, specifier) == Some(b)
    ensures forall p :: Reachable(fs, a, p) ==> p in [a, b]
  {
    forall x, y | x in [a, b] && ImportEdges(fs)(x, y) ensures y in [a, b] {
      OnlyEdge(fs, a, b, specifier, x, y);
    }
    ClosedIsReachable(fs, a, [a, b]);
  }

  lemma TwoFileGraph(fs: Sources, a: Path, b: Path, specifier: string)
    requires a in fs && b in fs && a != b && fs[a] == [specifier] && IsRelative(specifier) && fs[b] == []
    requires ResolveRelativeImportPath(fs.Keys, a, specifier) == Some(b)
    ensures IsGraphFrom(fs, a, [a, b])
  {
    BothReached(fs, a, b, specifier);
    OnlyBothReached(fs, a, b, specifier);
  }

  lemma LostWhenNotTame(fs: Sources, root: Path, isolated: Path, a: Path, b: Path, specifier: string)
    requires a in fs && b in fs && a != b && root < a && root < b
    requires IsFresh(fs.Keys, isolated) && BaseName(isolated) !in Split(specifier)
    requires ResolveRelativeImportPath(fs.Keys, a, specifier) == Some(b)
    requires fs[a] == [specifier] && IsRelative(specifier) && fs[b] == []
    requires !IsTame(fs.Keys, root, isolated, a, specifier)
    ensures IsLost(fs, root, isolated, a, b, specifier)
  {
    TwoFileGraph(fs, a, b, specifier);
    CopyOfTwoIs(fs, root, isolated, a, b);
    ImportKeptIff(fs, [a, b], root, isolated, CopyOfTwo(fs, root, isolated, a, b), a, specifier, b);
  }

  lemma FreshElsewhere(files: set<Path>, isolated: Path, first: string)
    requires |isolated| == 2 && isolated[0] != first
    requires forall f :: f in files ==> f != [] && f[0] == first
    ensures IsFresh(files, isolated)
  {
    forall e | e in SOURCE_FILE_EXTENSIONS ensures WithBaseName(isolated, BaseName(isolated) + e) !in files {
      assert WithBaseName(isolated, BaseName(isolated) + e)[0] == isolated[0];
    }
  }

  // ---------- a specifier that climbs above the root and comes back ----------

  const PACKAGE: Path := ["p"]
  const MODULE: Path := ["p", "a.ts"]
  const IMPORTED: Path := ["p", "b.ts"]
  const CACHE: Path := ["c", "p-x"]
  const UP_AND_BACK: string := "../p/b.ts"

  function PackageFiles(): Sources {
    map[MODULE := [UP_AND_BACK], IMPORTED := [], ["p", PACKAGE_JSON] := []]
  }

  lemma PackageFilesAre()
    ensures var fs := PackageFiles();
            && MODULE in fs && IMPORTED in fs && MODULE != IMPORTED
            && fs[MODULE] == [UP_AND_BACK] && fs[IMPORTED] == [] && IsRelative(UP_AND_BACK)
  {
    assert MODULE[1] != IMPORTED[1] && MODULE[1] != PACKAGE_JSON && IMPORTED[1] != PACKAGE_JSON;
  }

  lemma {:induction false} ThreeSegments(a: string, b: string, c: string)
    requires '/' !in a && '/' !in b && '/' !in c
    ensures Split(a + "/" + (b + "/" + c)) == [a, b, c]
  {
    SplitSlash(a, b + "/" + c);
    SplitSlash(b, c);
    SplitPlain(c);
  }

  lemma {:induction false} UpAndBackSegments()
    ensures Split(UP_AND_BACK) == ["..", "p", "b.ts"]
  {
    ThreeSegments("..", "p", "b.ts");
    assert UP_AND_BACK == ".." + "/" + ("p" + "/" + "b.ts");
  }

  lemma UpAndBackBase()
    ensures ImportBase(MODULE, UP_AND_BACK) == IMPORTED
  {
    UpAndBackSegments();
  }

  lemma FoundFirst(files: set<Path>, a: Path, specifier: string, b: Path)
    requires ImportBase(a, specifier) == b && b in files
    ensures ResolveRelativeImportPath(files, a, specifier) == Some(b)
  {
    assert ResolveImportCandidates(b)[0] == b;
  }

  lemma UpAndBackIsFound()
    ensures ResolveRelativeImportPath(PackageFiles().Keys, MODULE, UP_AND_BACK) == Some(IMPORTED)
  {
    UpAndBackBase();
    FoundFirst(PackageFiles().Keys, MODULE, UP_AND_BACK, IMPORTED);
  }

  lemma UpAndBackIsNotTame()
    ensures !IsTame(PackageFiles().Keys, PACKAGE, CACHE, MODULE, UP_AND_BACK)
  {
    UpAndBackSegments();
    assert !StaysInside(PACKAGE, Parent(MODULE), Split(UP_AND_BACK));
  }

  lemma CacheIsNotNamed()
    ensures BaseName(CACHE) !in Split(UP_AND_BACK)
  {
    UpAndBackSegments();
    assert |BaseName(CACHE)| == 3;
  }

  lemma CacheIsFresh()
    ensures IsFresh(PackageFiles().Keys, CACHE)
  {
    FreshElsewhere(PackageFiles().Keys, CACHE, "p");
  }

  /** The file is there, and its copy is not what the copied module finds. */
  lemma ClimbingImportIsLost(fs: Sources, isolated: Path, specifier: string)
    requires fs == PackageFiles() && isolated == CACHE && specifier == UP_AND_BACK
    ensures IsLost(fs, PACKAGE, isolated, MODULE, IMPORTED, specifier)
  {
    CacheIsNotNamed();
    UpAndBackIsFound();
    UpAndBackIsNotTame();
    CacheIsFresh();
    PackageFilesAre();
    LostWhenNotTame(fs, PACKAGE, isolated, MODULE, IMPORTED, specifier);
  }

  // ---------- an import of the root above a package whose name has a dot ----------

  const WORKSPACE: Path := ["w"]
  const DOTTED_PACKAGE: Path := ["w", "my.pkg"]
  const DOTTED_MODULE: Path := ["w", "my.pkg", "a.ts"]
  const INDEX: Path := ["w", "index.ts"]
  const DOTTED_CACHE: Path := ["c", "my.pkg-x"]

  function WorkspaceFiles(): Sources {
    map[DOTTED_MODULE := [".."], INDEX := [], ["w", "my.pkg", PACKAGE_JSON] := []]
  }

  /** The workspace is the root of the copy. */
  lemma WorkspaceIsRoot()
    ensures IsLongestCommonAncestor(WORKSPACE, [DOTTED_PACKAGE, DOTTED_MODULE, INDEX])
  {
    var paths := [DOTTED_PACKAGE, DOTTED_MODULE, INDEX];
    forall b | IsAncestorOfAll(b, paths) ensures b <= WORKSPACE {
      assert paths[0] in paths && paths[2] in paths;
      assert b <= paths[0] && b <= paths[2];
      assert DOTTED_PACKAGE[1] != INDEX[1];
    }
  }

  lemma DottedName()
    ensures Extension(BaseName(DOTTED_CACHE)) != ""
  {
    IsolatedNameExtension("my.pkg", "x");
    assert "my.pkg-x" == "my.pkg" + "-" + "x";
    LastDotSkips("my.", "pkg");
    assert "my.pkg" == "my." + "pkg";
  }

  lemma ParentSegments()
    ensures Split("..") == [".."] && ImportBase(DOTTED_MODULE, "..") == WORKSPACE
  {
    SplitPlain("..");
  }

  lemma IndexIsFound()
    ensures ResolveRelativeImportPath(WorkspaceFiles().Keys, DOTTED_MODULE, "..") == Some(INDEX)
  {
    var files, cs := WorkspaceFiles().Keys, ResolveImportCandidates(WORKSPACE);
    ParentSegments();
    assert LastDot("w") == -1;
    assert cs == [WORKSPACE] + AddExtension(WORKSPACE, SOURCE_FILE_EXTENSIONS);
    assert "index" + ".ts" == "index.ts";
    assert cs[2] == WORKSPACE + ["index.ts"] == INDEX;
    assert |cs[0]| == 1 && |cs[1]| == 1;
    assert forall f :: f in files ==> |f| >= 2;
    assert cs[0] !in files && cs[1] !in files && INDEX in files;
    FirstFileIs(files, cs, 2);
  }

  lemma RootImportIsNotTame()
    ensures !IsTame(WorkspaceFiles().Keys, WORKSPACE, DOTTED_CACHE, DOTTED_MODULE, "..")
  {
    ParentSegments();
    DottedName();
  }

  /** The index file of the root is there, and the copied module does not find its copy. */
  lemma RootImportIsLost(fs: Sources, isolated: Path, specifier: string)
    requires fs == WorkspaceFiles() && isolated == DOTTED_CACHE && specifier == ".."
    ensures IsLost(fs, WORKSPACE, isolated, DOTTED_MODULE, INDEX, specifier)
  {
    ParentSegments();
    IndexIsFound();
    RootImportIsNotTame();
    FreshElsewhere(fs.Keys, isolated, "w");
    LostWhenNotTame(fs, WORKSPACE, isolated, DOTTED_MODULE, INDEX, specifier);
  }
}
