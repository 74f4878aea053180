/** Which file a relative import means, by the text of its specifier and the names of the files
    (scripts/load-channel-config-surface.ts:73-101, 117-126). */
module ImportMeaning {
  import opened Text
  import opened ImportGraph

  // ---------- where a specifier points ----------

  lemma {:induction false} SplitPlain(s: string)
    requires '/' !in s
    ensures Split(s) == [s]
  {
    if s == "" {
    } else {
      SplitPlain(s[1..]);
      assert [s[0]] + s[1..] == s;
    }
  }

  lemma {:induction false} SplitSlash(s: string, rest: string)
    requires '/' !in s
    ensures Split(s + "/" + rest) == [s] + Split(rest)
  {
    var t := s + "/" + rest;
    if s == "" {
      assert t[1..] == rest;
    } else {
      SplitSlash(s[1..], rest);
      assert t[1..] == s[1..] + "/" + rest;
      assert [s[0]] + s[1..] == s;
    }
  }

  predicate IsSegment(s: string) {
    '/' !in s
  }

  /** Something a file or a directory can be called. */
  predicate IsName(s: string) {
    s != "" && s != "." && s != ".." && IsSegment(s)
  }

  function Joined(segments: seq<string>): string {
    if segments == [] then ""
    else if |segments| == 1 then segments[0]
    else segments[0] + "/" + Joined(segments[1..])
  }

  /** Splitting a specifier at its slashes undoes joining. */
  lemma {:induction false} SplitJoined(segments: seq<string>)
    requires segments != [] && forall s :: s in segments ==> IsSegment(s)
    ensures Split(Joined(segments)) == segments
  {
    assert segments[0] in segments;
    if |segments| == 1 {
      SplitPlain(segments[0]);
    } else {
      SplitJoined(segments[1..]);
      SplitSlash(segments[0], Joined(segments[1..]));
      assert [segments[0]] + segments[1..] == segments;
    }
  }

  lemma {:induction false} WalkConcat(dir: Path, a: seq<string>, b: seq<string>)
    ensures Walk(dir, a + b) == Walk(Walk(dir, a), b)
    decreases a
  {
    if a == [] {
      assert a + b == b;
    } else {
      WalkConcat(Step(dir, a[0]), a[1..], b);
      assert (a + b)[1..] == a[1..] + b;
    }
  }

  lemma {:induction false} WalkNames(dir: Path, names: seq<string>)
    requires forall s :: s in names ==> IsName(s)
    ensures Walk(dir, names) == dir + names
    decreases names
  {
    if names == [] {
    } else {
      assert names[0] in names;
      WalkNames(dir + [names[0]], names[1..]);
      assert dir + [names[0]] + names[1..] == dir + names;
    }
  }

  function Ups(k: nat): (s: seq<string>)
    ensures |s| == k && forall i :: 0 <= i < k ==> s[i] == ".."
  {
    seq(k, _ => "..")
  }

  lemma {:induction false} WalkUps(dir: Path, k: nat)
    ensures Walk(dir, Ups(k)) == if k <= |dir| then dir[..|dir| - k] else []
  {
    if k == 0 {
    } else {
      WalkUps(Parent(dir), k - 1);
      assert Ups(k)[1..] == Ups(k - 1);
    }
  }

  lemma UpsAreSegments(k: nat, names: seq<string>)
    requires forall s :: s in names ==> IsName(s)
    ensures forall s :: s in Ups(k) + names ==> IsSegment(s)
  {
  }

  /** `./x/y` names what lies below the importing file's directory. */
  lemma BelowSpecifier(dir: Path, file: string, names: seq<string>)
    requires forall s :: s in names ==> IsName(s)
    ensures ImportBase(dir + [file], Joined(["."] + names)) == dir + names
  {
    SplitJoined(["."] + names);
    assert (["."] + names)[1..] == names;
    WalkNames(dir, names);
  }

  /** Every leading `..` takes one directory off it first. */
  lemma AboveSpecifier(dir: Path, file: string, k: nat, names: seq<string>)
    requires 1 <= k && forall s :: s in names ==> IsName(s)
    ensures ImportBase(dir + [file], Joined(Ups(k) + names)) == (if k <= |dir| then dir[..|dir| - k] else []) + names
  {
    UpsAreSegments(k, names);
    SplitJoined(Ups(k) + names);
    WalkConcat(dir, Ups(k), names);
    WalkUps(dir, k);
    WalkNames(Walk(dir, Ups(k)), names);
  }

  lemma IdleWalk(dir: Path, idle: seq<string>)
    requires idle == [""] || idle == ["."] || (|idle| == 2 && IsName(idle[0]) && idle[1] == "..")
    ensures Walk(dir, idle) == dir
  {
    if |idle| == 2 {
      assert idle == [idle[0]] + [".."];
      WalkNames(dir, [idle[0]]);
      WalkConcat(dir, [idle[0]], [".."]);
      WalkUps(dir + [idle[0]], 1);
      assert Ups(1) == [".."];
    }
  }

  /** Anywhere in a specifier empty segments, dots, and a name with `..` behind it do nothing. */
  lemma IdleSegments(from: Path, a: seq<string>, idle: seq<string>, b: seq<string>)
    requires a + b != [] && forall s :: s in a + idle + b ==> IsSegment(s)
    requires idle == [""] || idle == ["."] || (|idle| == 2 && IsName(idle[0]) && idle[1] == "..")
    ensures ImportBase(from, Joined(a + idle + b)) == ImportBase(from, Joined(a + b))
  {
    var dir := Parent(from);
    SplitJoined(a + idle + b);
    forall s | s in a + b ensures IsSegment(s) {
      assert s in a + idle + b;
    }
    SplitJoined(a + b);
    WalkConcat(dir, a + idle, b);
    WalkConcat(dir, a, idle);
    WalkConcat(dir, a, b);
    IdleWalk(Walk(dir, a), idle);
  }

  // ---------- which file it finds ----------

  /** r is the first of the paths that is a file. */
  ghost predicate IsFirstFile(files: set<Path>, paths: seq<Path>, r: Option<Path>) {
    match r
    case None => forall i :: 0 <= i < |paths| ==> paths[i] !in files
    case Some(p) => exists i :: 0 <= i < |paths| && paths[i] == p && p in files
                                && forall k :: 0 <= k < i ==> paths[k] !in files
  }

  /** An extension begins with the only dot in it. */
  predicate IsExtension(ext: string) {
    ext != "" && ext[0] == '.' && '.' !in ext[1..]
  }

  lemma ExtensionOf(stem: string, ext: string)
    requires stem != "" && IsExtension(ext) && stem + ext != ".."
    ensures Extension(stem + ext) == ext
  {
    LastDotSkips(stem + ".", ext[1..]);
    assert stem + ext == (stem + ".") + ext[1..];
    assert (stem + ext)[|stem|..] == ext;
  }

  lemma {:induction false} NoDot(name: string)
    requires name != "" && '.' !in name[1..]
    ensures Extension(name) == ""
  {
    LastDotSkips([name[0]], name[1..]);
    assert name == [name[0]] + name[1..];
    assert LastDot([name[0]]) <= 0;
  }

  /** What is tried for a path whose name has an extension: the path, and then the path with one
      source extension after the other in place of its own. */
  function Swapped(dir: Path, stem: string, ext: string): seq<Path> {
    [dir + [stem + ext],
     dir + [stem + ".ts"], dir + [stem + ".tsx"], dir + [stem + ".mts"], dir + [stem + ".cts"],
     dir + [stem + ".js"], dir + [stem + ".jsx"], dir + [stem + ".mjs"], dir + [stem + ".cjs"]]
  }

  /** What is tried for a path whose name has none: the path, and then for one extension after the
      other the path with the extension and the index file in the directory. */
  function Extended(dir: Path, name: string): seq<Path> {
    var p := dir + [name];
    [p,
     dir + [name + ".ts"], p + ["index" + ".ts"], dir + [name + ".tsx"], p + ["index" + ".tsx"],
     dir + [name + ".mts"], p + ["index" + ".mts"], dir + [name + ".cts"], p + ["index" + ".cts"],
     dir + [name + ".js"], p + ["index" + ".js"], dir + [name + ".jsx"], p + ["index" + ".jsx"],
     dir + [name + ".mjs"], p + ["index" + ".mjs"], dir + [name + ".cjs"], p + ["index" + ".cjs"]]
  }

  lemma SwapList(dir: Path, name: string, stem: string)
    ensures SwapExtension(dir + [name], stem, SOURCE_FILE_EXTENSIONS) == Swapped(dir, stem, "")[1..]
  {
    var cs, ds := SwapExtension(dir + [name], stem, SOURCE_FILE_EXTENSIONS), Swapped(dir, stem, "")[1..];
    assert |cs| == |ds| == 8;
    forall e: string ensures WithBaseName(dir + [name], e) == dir + [e] {
    }
    forall i | 0 <= i < 8 ensures cs[i] == ds[i] {
      assert cs[i] == dir + [stem + SOURCE_FILE_EXTENSIONS[i]];
    }
  }

  lemma SwappedAreTried(dir: Path, stem: string, ext: string)
    requires stem != "" && IsExtension(ext) && stem + ext != ".."
    ensures ResolveImportCandidates(dir + [stem + ext]) == Swapped(dir, stem, ext)
  {
    ExtensionOf(stem, ext);
    var base := dir + [stem + ext];
    assert (stem + ext)[..|stem|] == stem && BaseName(base) == stem + ext;
    assert ResolveImportCandidates(base) == [base] + SwapExtension(base, stem, SOURCE_FILE_EXTENSIONS);
    SwapList(dir, stem + ext, stem);
  }

  lemma AddedAt(base: Path, extensions: seq<string>, i: nat)
    requires i < |extensions|
    ensures var cs := AddExtension(base, extensions);
            && |cs| == 2 * |extensions|
            && cs[2 * i] == WithBaseName(base, BaseName(base) + extensions[i])
            && cs[2 * i + 1] == base + ["index" + extensions[i]]
  {
  }

  lemma ExtendedAt(dir: Path, name: string, i: nat)
    requires i < 8
    ensures var ds := Extended(dir, name)[1..];
            && ds[2 * i] == dir + [name + SOURCE_FILE_EXTENSIONS[i]]
            && ds[2 * i + 1] == dir + [name] + ["index" + SOURCE_FILE_EXTENSIONS[i]]
  {
  }

  lemma ExtendList(dir: Path, name: string)
    ensures AddExtension(dir + [name], SOURCE_FILE_EXTENSIONS) == Extended(dir, name)[1..]
  {
    var base := dir + [name];
    var cs, ds := AddExtension(base, SOURCE_FILE_EXTENSIONS), Extended(dir, name)[1..];
    assert Parent(base) == dir && BaseName(base) == name && |SOURCE_FILE_EXTENSIONS| == 8;
    forall k | 0 <= k < 16 ensures cs[k] == ds[k] {
      AddedAt(base, SOURCE_FILE_EXTENSIONS, k / 2);
      ExtendedAt(dir, name, k / 2);
      assert k == 2 * (k / 2) || k == 2 * (k / 2) + 1;
    }
  }

  lemma ExtendedAreTried(dir: Path, name: string)
    requires name != "" && '.' !in name[1..]
    ensures ResolveImportCandidates(dir + [name]) == Extended(dir, name)
  {
    NoDot(name);
    var base := dir + [name];
    assert BaseName(base) == name;
    assert ResolveImportCandidates(base) == [base] + AddExtension(base, SOURCE_FILE_EXTENSIONS);
    ExtendList(dir, name);
  }

  lemma TriedFirst(files: set<Path>, from: Path, specifier: string, paths: seq<Path>)
    requires ResolveImportCandidates(ImportBase(from, specifier)) == paths
    ensures IsFirstFile(files, paths, ResolveRelativeImportPath(files, from, specifier))
  {
    FirstFileMeaning(files, paths);
    if ResolveRelativeImportPath(files, from, specifier).None? {
      forall i | 0 <= i < |paths| ensures paths[i] !in files {
        assert paths[i] in paths;
      }
    }
  }

  /** An import whose path has an extension means the first file among the path itself and the
      paths with a source extension in its place. */
  lemma ImportWithExtension(files: set<Path>, from: Path, specifier: string, dir: Path, stem: string, ext: string)
    requires ImportBase(from, specifier) == dir + [stem + ext]
    requires stem != "" && IsExtension(ext) && stem + ext != ".."
    ensures IsFirstFile(files, Swapped(dir, stem, ext), ResolveRelativeImportPath(files, from, specifier))
  {
    SwappedAreTried(dir, stem, ext);
    TriedFirst(files, from, specifier, Swapped(dir, stem, ext));
  }

  /** An import whose path has none means the first file among the path itself, the path with a
      source extension and the index files of the directory. */
  lemma ImportWithoutExtension(files: set<Path>, from: Path, specifier: string, dir: Path, name: string)
    requires ImportBase(from, specifier) == dir + [name] && name != "" && '.' !in name[1..]
    ensures IsFirstFile(files, Extended(dir, name), ResolveRelativeImportPath(files, from, specifier))
  {
    ExtendedAreTried(dir, name);
    TriedFirst(files, from, specifier, Extended(dir, name));
  }

  /** In particular `./x.js` means `x.ts` when there is no `x.js`. */
  lemma JsMeansTs(files: set<Path>, dir: Path, file: string, stem: string)
    requires stem != "" && IsSegment(stem)
    requires dir + [stem + ".js"] !in files && dir + [stem + ".ts"] in files
    ensures ResolveRelativeImportPath(files, dir + [file], "./" + (stem + ".js")) == Some(dir + [stem + ".ts"])
  {
    var names := [stem + ".js"];
    BelowSpecifier(dir, file, names);
    assert Joined(["."] + names) == "." + "/" + Joined(names) == "./" + (stem + ".js");
    ImportWithExtension(files, dir + [file], "./" + (stem + ".js"), dir, stem, ".js");
    var r, paths := ResolveRelativeImportPath(files, dir + [file], "./" + (stem + ".js")), Swapped(dir, stem, ".js");
    assert paths[0] == dir + [stem + ".js"] && paths[1] == dir + [stem + ".ts"];
  }

  // ---------- what is followed ----------

  /** A file of the graph leads to another exactly by a specifier that begins with a dot. */
  lemma FollowedIff(fs: Sources, a: Path, b: Path)
    ensures ImportEdges(fs)(a, b) <==>
            a in fs && exists s :: s in fs[a] && s != "" && s[0] == '.'
                                   && ResolveRelativeImportPath(fs.Keys, a, s) == Some(b)
  {
    if a in fs {
      if s :| s in fs[a] && s != "" && s[0] == '.' && ResolveRelativeImportPath(fs.Keys, a, s) == Some(b) {
        assert Resolver(fs.Keys, a)(s) == Some(b);
      }
      if ImportEdges(fs)(a, b) {
        var s :| s in fs[a] && Resolver(fs.Keys, a)(s) == Some(b);
        assert s != "" && s[0] == '.';
      }
    }
  }

  /** So the graph of a module that imports `./x.js` has `x.ts` in it. */
  lemma JsImportIsReached(fs: Sources, dir: Path, file: string, stem: string)
    requires dir + [file] in fs && "./" + (stem + ".js") in fs[dir + [file]]
    requires stem != "" && IsSegment(stem) && dir + [stem + ".js"] !in fs && dir + [stem + ".ts"] in fs
    ensures Reachable(fs, dir + [file], dir + [stem + ".ts"])
  {
    JsMeansTs(fs.Keys, dir, file, stem);
    FollowedIff(fs, dir + [file], dir + [stem + ".ts"]);
    LeadsSelf(ImportEdges(fs), dir + [file]);
    LeadsStep(ImportEdges(fs), dir + [file], dir + [file], dir + [stem + ".ts"]);
  }
}
