/**
  `isText` and `getFiles` of utils/read.py: which files of the given paths
  become part of the request.
*/
module FileSelector {
  import opened Wrappers
  import opened Text
  import opened Seqs
  import opened Sorting

  /** Directory names never descended into (`IGNORED_FOLDERS`). */
  const IGNORED_FOLDERS: seq<string> :=
    [".git", "__pycache__", ".idea", ".vscode", ".DS_Store", ".pytest_cache", "node_modules", "venv", "env"]

  /** Path endings never treated as text (`IGNORED_FILES`). */
  const IGNORED_FILES: seq<string> :=
    ["README.md", "LICENSE", ".gitignore", ".env", ".jar", ".zip", ".tar", ".gz", ".tgz", ".bz2", ".xz",
     ".7z", ".rar", ".png", ".jpg", ".jpeg", ".gif", ".bmp", ".svg", ".ico", ".webp", ".mp4", ".mkv",
     ".avi", ".mov", ".wmv", ".flv", ".mp3", ".wav", ".ogg", ".flac", ".pdf", ".doc", ".docx", ".xls",
     ".xlsx", ".ppt", ".pptx"]

  /**
    The two answers isText takes from the platform: the MIME type
    `mimetypes.guess_type(path)` guesses from the name, and whether opening
    the file and reading 1024 characters as UTF-8 succeeds (false when it raises).
  */
  datatype Probes = Probes(guessMime: string -> Option<string>, decodesUtf8: string -> bool)

  /** The early-return loop of isText over the suffix list `exts`. */
  function EndsWithAny(path: string, exts: seq<string>): bool {
    if exts == [] then false
    else if EndsWith(path, exts[0]) then true
    else EndsWithAny(path, exts[1..])
  }

  /** The search answers true exactly when some entry of `exts` ends `path`. */
  lemma {:induction false} EndsWithAnyIff(path: string, exts: seq<string>)
    ensures EndsWithAny(path, exts) <==> exists i :: 0 <= i < |exts| && EndsWith(path, exts[i])
  {
    if exts != [] {
      EndsWithAnyIff(path, exts[1..]);
      if exists i :: 0 <= i < |exts| && EndsWith(path, exts[i]) {
        var i :| 0 <= i < |exts| && EndsWith(path, exts[i]);
        if i > 0 { assert exts[1..][i - 1] == exts[i]; }
      }
      if exists i :: 0 <= i < |exts[1..]| && EndsWith(path, exts[1..][i]) {
        var i :| 0 <= i < |exts[1..]| && EndsWith(path, exts[1..][i]);
        assert exts[i + 1] == exts[1..][i];
      }
    }
  }

  /** The MIME guess is present and starts with "text". */
  predicate MimeSaysText(probes: Probes, path: string) {
    var mime := probes.guessMime(path);
    mime.Some? && StartsWith(mime.value, "text")
  }

  /**
    `isText(path)`: a path ending with an ignored suffix is rejected; otherwise
    a text MIME guess accepts it, and failing that the UTF-8 probe decides.
  */
  function IsText(probes: Probes, path: string): bool {
    if EndsWithAny(path, IGNORED_FILES) then false
    else if MimeSaysText(probes, path) then true
    else probes.decodesUtf8(path)
  }

  /** A path ending with an entry of IGNORED_FILES is never text, whatever the MIME guess and the probe say. */
  lemma IgnoredNeverText(probes: Probes, path: string, i: nat)
    requires i < |IGNORED_FILES| && EndsWith(path, IGNORED_FILES[i])
    ensures !IsText(probes, path)
  {
    EndsWithAnyIff(path, IGNORED_FILES);
  }

  /** Any other path is text exactly when the MIME guess says so or the probe succeeds. */
  lemma OtherwiseTextIff(probes: Probes, path: string)
    requires forall i :: 0 <= i < |IGNORED_FILES| ==> !EndsWith(path, IGNORED_FILES[i])
    ensures IsText(probes, path) <==> MimeSaysText(probes, path) || probes.decodesUtf8(path)
  {
    EndsWithAnyIff(path, IGNORED_FILES);
  }

  /**
    The suffix test is plain `endswith`, not an extension test: a name that
    merely ends with an entry is rejected too, whatever the platform answers.
  */
  lemma SuffixRuleExample(probes: Probes)
    ensures !IsText(probes, "fooREADME.md")
  {
    IgnoredNeverText(probes, "fooREADME.md", 0);
  }

  // ---------------------------------------------------------------------
  // The file system, as the walk sees it

  /** A directory: the names of its non-directory entries and its subdirectories, in listing order. */
  datatype Dir = Dir(files: seq<string>, subdirs: seq<Subdir>)
  datatype Subdir = Subdir(name: string, dir: Dir)

  /** What an input path names: a regular file or a directory (absent from the map: neither). */
  datatype Node = RegularFile | Directory(root: Dir)
  type FileSystem = map<string, Node>

  /** `os.path.join(a, b)` on POSIX. */
  function Join(a: string, b: string): string {
    if StartsWith(b, "/") then b
    else if a == [] || EndsWith(a, "/") then a + b
    else a + "/" + b
  }

  /** Joining a relative name to a path that does not end in "/" puts one "/" between them. */
  lemma JoinPlain(a: string, b: string)
    requires a != [] && a[|a| - 1] != '/' && b != [] && b[0] != '/'
    ensures Join(a, b) == a + "/" + b
  {
    assert !StartsWith(b, "/") by { assert b[..1] != "/"; }
    assert !EndsWith(a, "/") by { assert a[|a| - 1..] != "/"; }
  }

  /** The path reached from `root` by joining the names `rel` one after the other. */
  function JoinAll(root: string, rel: seq<string>): string
    decreases |rel|
  {
    if rel == [] then root else JoinAll(Join(root, rel[0]), rel[1..])
  }

  /** Directory `e` lies at the relative path `rel` below `d`. */
  ghost predicate Path(d: Dir, rel: seq<string>, e: Dir)
    decreases rel
  {
    if rel == [] then e == d
    else exists k :: 0 <= k < |d.subdirs| && d.subdirs[k].name == rel[0] && Path(d.subdirs[k].dir, rel[1..], e)
  }

  /** No name in `rel` is one of IGNORED_FOLDERS. */
  ghost predicate NoIgnored(rel: seq<string>) {
    forall c :: c in rel ==> c !in IGNORED_FOLDERS
  }

  /**
    One triple `(root, dirnames, filenames)` of os.walk: the directory `dir`,
    its path `root` and the names `parts` that lead to it from the input path.
  */
  datatype Visit = Visit(parts: seq<string>, root: string, dir: Dir)

  /**
    What `os.walk(root)` yields, top-down, when the loop body keeps in
    `dirnames` only the names not in IGNORED_FOLDERS: the directory itself,
    then the walks of its kept subdirectories in listing order.
  */
  function Walk(root: string, parts: seq<string>, d: Dir): seq<Visit>
    decreases d, 1
  {
    [Visit(parts, root, d)] + WalkSubdirs(root, parts, d.subdirs)
  }

  /** The walks of the subdirectories `subs` of the directory at `root`, skipping those named in IGNORED_FOLDERS. */
  function WalkSubdirs(root: string, parts: seq<string>, subs: seq<Subdir>): seq<Visit>
    decreases subs, 0
  {
    if subs == [] then []
    else
      (if subs[0].name in IGNORED_FOLDERS then []
       else Walk(Join(root, subs[0].name), parts + [subs[0].name], subs[0].dir))
      + WalkSubdirs(root, parts, subs[1..])
  }

  /** Every visit of WalkSubdirs comes from the walk of one kept subdirectory. */
  lemma {:induction false} WalkSubdirsFrom(root: string, parts: seq<string>, subs: seq<Subdir>, v: Visit)
    requires v in WalkSubdirs(root, parts, subs)
    ensures exists k :: (0 <= k < |subs| && subs[k].name !in IGNORED_FOLDERS
      && v in Walk(Join(root, subs[k].name), parts + [subs[k].name], subs[k].dir))
  {
    if v !in (if subs[0].name in IGNORED_FOLDERS then []
              else Walk(Join(root, subs[0].name), parts + [subs[0].name], subs[0].dir)) {
      WalkSubdirsFrom(root, parts, subs[1..], v);
      var k :| 0 <= k < |subs[1..]| && subs[1..][k].name !in IGNORED_FOLDERS
        && v in Walk(Join(root, subs[1..][k].name), parts + [subs[1..][k].name], subs[1..][k].dir);
      assert subs[1..][k] == subs[k + 1];
    }
  }

  /** The walk of every kept subdirectory is part of WalkSubdirs. */
  lemma {:induction false} WalkSubdirsHas(root: string, parts: seq<string>, subs: seq<Subdir>, k: nat, v: Visit)
    requires k < |subs| && subs[k].name !in IGNORED_FOLDERS
    requires v in Walk(Join(root, subs[k].name), parts + [subs[k].name], subs[k].dir)
    ensures v in WalkSubdirs(root, parts, subs)
  {
    if k > 0 {
      assert subs[1..][k - 1] == subs[k];
      WalkSubdirsHas(root, parts, subs[1..], k - 1, v);
    }
  }

  /**
    The walk visits only directories reached through kept names: each visit
    carries the names that lead to it from `d`, none of them in
    IGNORED_FOLDERS, and its root is the path those names spell.
  */
  lemma {:induction false} WalkSound(root: string, parts: seq<string>, d: Dir, v: Visit)
    requires v in Walk(root, parts, d)
    ensures |parts| <= |v.parts| && v.parts[..|parts|] == parts
    ensures Path(d, v.parts[|parts|..], v.dir)
    ensures NoIgnored(v.parts[|parts|..])
    ensures v.root == JoinAll(root, v.parts[|parts|..])
    decreases d
  {
    if v != Visit(parts, root, d) {
      WalkSubdirsFrom(root, parts, d.subdirs, v);
      var k :| 0 <= k < |d.subdirs| && d.subdirs[k].name !in IGNORED_FOLDERS
        && v in Walk(Join(root, d.subdirs[k].name), parts + [d.subdirs[k].name], d.subdirs[k].dir);
      var s := d.subdirs[k];
      var sub := parts + [s.name];
      WalkSound(Join(root, s.name), sub, s.dir, v);
      var rest := v.parts[|sub|..];
      PrefixStep(v.parts, parts, s.name);
      StepDown(d, k, root, rest, v.dir);
      assert Path(d, v.parts[|parts|..], v.dir);
      assert NoIgnored(v.parts[|parts|..]);
      assert v.root == JoinAll(root, v.parts[|parts|..]);
    } else {
      assert v.parts[|parts|..] == [];
    }
  }

  /** One step down from `d` into its k-th subdirectory, if that one is kept. */
  lemma StepDown(d: Dir, k: nat, root: string, rest: seq<string>, e: Dir)
    requires k < |d.subdirs| && d.subdirs[k].name !in IGNORED_FOLDERS
    requires Path(d.subdirs[k].dir, rest, e) && NoIgnored(rest)
    ensures var rel := [d.subdirs[k].name] + rest;
      Path(d, rel, e) && NoIgnored(rel)
      && JoinAll(root, rel) == JoinAll(Join(root, d.subdirs[k].name), rest)
  {
    var rel := [d.subdirs[k].name] + rest;
    assert rel[1..] == rest;
  }

  /** Conversely, every directory reached through kept names is visited. */
  lemma {:induction false} WalkComplete(root: string, parts: seq<string>, d: Dir, rel: seq<string>, e: Dir)
    requires Path(d, rel, e) && NoIgnored(rel)
    ensures Visit(parts + rel, JoinAll(root, rel), e) in Walk(root, parts, d)
    decreases rel
  {
    if rel == [] {
      assert parts + rel == parts;
    } else {
      var k :| 0 <= k < |d.subdirs| && d.subdirs[k].name == rel[0] && Path(d.subdirs[k].dir, rel[1..], e);
      var s := d.subdirs[k];
      assert rel[0] in rel;
      WalkComplete(Join(root, s.name), parts + [s.name], s.dir, rel[1..], e);
      HeadTail(rel);
      AppendAssoc(parts, [s.name], rel[1..]);
      WalkSubdirsHas(root, parts, d.subdirs, k, Visit(parts + rel, JoinAll(root, rel), e));
    }
  }

  // ---------------------------------------------------------------------
  // What getFiles collects

  /** The joined paths of the names in directory `root` that pass the test `accept` (isText), in order. */
  function TextFilesIn(accept: string -> bool, root: string, names: seq<string>): seq<string>
  {
    if names == [] then []
    else
      var full := Join(root, names[|names| - 1]);
      TextFilesIn(accept, root, names[..|names| - 1]) + (if accept(full) then [full] else [])
  }

  /** The files the walk contributes, visit after visit. */
  function WalkFiles(accept: string -> bool, visits: seq<Visit>): seq<string>
  {
    if visits == [] then []
    else
      var v := visits[|visits| - 1];
      WalkFiles(accept, visits[..|visits| - 1]) + TextFilesIn(accept, v.root, v.dir.files)
  }

  /** What one input path contributes: itself if it is a text file, the walk's text files if it is a directory. */
  function PathFiles(accept: string -> bool, fs: FileSystem, path: string): seq<string> {
    if path in fs && fs[path].RegularFile? && accept(path) then [path]
    else if path in fs && fs[path].Directory? then WalkFiles(accept, Walk(path, [], fs[path].root))
    else []
  }

  /** The list `files` before sorting: the contributions of the input paths in order. */
  function Collected(accept: string -> bool, fs: FileSystem, paths: seq<string>): seq<string> {
    if paths == [] then []
    else Collected(accept, fs, paths[..|paths| - 1]) + PathFiles(accept, fs, paths[|paths| - 1])
  }

  // ---------------------------------------------------------------------
  // What is collected, stated without the walk

  /** File `x` lies below directory `d` (whose path is `p`), in a directory reached through kept names only. */
  ghost predicate InTree(p: string, d: Dir, x: string) {
    exists rel, e, k :: Path(d, rel, e) && NoIgnored(rel) && 0 <= k < |e.files|
      && x == Join(JoinAll(p, rel), e.files[k])
  }

  /** Input path `p` accounts for `x`: `p` is that regular file, or `x` lies below directory `p` as InTree says. */
  ghost predicate Origin(fs: FileSystem, p: string, x: string) {
    p in fs
    && (fs[p].RegularFile? ==> x == p)
    && (fs[p].Directory? ==> InTree(p, fs[p].root, x))
  }

  /** The directory loop collects exactly the joined names that pass the test. */
  lemma {:induction false} InTextFilesIn(accept: string -> bool, root: string, names: seq<string>, x: string)
    ensures x in TextFilesIn(accept, root, names)
      <==> accept(x) && exists k :: 0 <= k < |names| && x == Join(root, names[k])
  {
    if names != [] {
      var init, last := names[..|names| - 1], names[|names| - 1];
      InTextFilesIn(accept, root, init, x);
      var full := Join(root, last);
      assert TextFilesIn(accept, root, names)
        == TextFilesIn(accept, root, init) + (if accept(full) then [full] else []);
      if exists k :: 0 <= k < |names| && x == Join(root, names[k]) {
        var k :| 0 <= k < |names| && x == Join(root, names[k]);
        if k < |init| { assert init[k] == names[k]; }
      }
      if exists k :: 0 <= k < |init| && x == Join(root, init[k]) {
        var k :| 0 <= k < |init| && x == Join(root, init[k]);
        assert names[k] == init[k];
      }
    }
  }

  /** Visit `v` contributes `x`. */
  ghost predicate Yields(accept: string -> bool, v: Visit, x: string) {
    x in TextFilesIn(accept, v.root, v.dir.files)
  }

  /** The walk collects exactly what some visit yields. */
  lemma {:induction false} InWalkFiles(accept: string -> bool, visits: seq<Visit>, x: string)
    ensures x in WalkFiles(accept, visits) <==> exists j :: 0 <= j < |visits| && Yields(accept, visits[j], x)
  {
    if visits != [] {
      var init, v := visits[..|visits| - 1], visits[|visits| - 1];
      var here := TextFilesIn(accept, v.root, v.dir.files);
      assert WalkFiles(accept, visits) == WalkFiles(accept, init) + here;
      InWalkFiles(accept, init, x);
      if x in WalkFiles(accept, visits) {
        if x in here {
          assert Yields(accept, visits[|visits| - 1], x);
        } else {
          var j :| 0 <= j < |init| && Yields(accept, init[j], x);
          assert visits[j] == init[j];
        }
      }
      if exists j :: 0 <= j < |visits| && Yields(accept, visits[j], x) {
        var j :| 0 <= j < |visits| && Yields(accept, visits[j], x);
        if j < |init| {
          assert init[j] == visits[j];
          assert x in WalkFiles(accept, init);
        } else {
          assert x in here;
        }
      }
    }
  }

  /** What the walk of directory `d` at `p` collects is exactly its text files in unpruned directories. */
  lemma WalkFilesIff(accept: string -> bool, p: string, d: Dir, x: string)
    ensures x in WalkFiles(accept, Walk(p, [], d)) <==> accept(x) && InTree(p, d, x)
  {
    var vs := Walk(p, [], d);
    InWalkFiles(accept, vs, x);
    if x in WalkFiles(accept, vs) {
      var j :| 0 <= j < |vs| && Yields(accept, vs[j], x);
      var v := vs[j];
      WalkSound(p, [], d, v);
      assert v.parts[0..] == v.parts;
      InTextFilesIn(accept, v.root, v.dir.files, x);
      var k :| 0 <= k < |v.dir.files| && x == Join(v.root, v.dir.files[k]);
      assert Path(d, v.parts, v.dir) && NoIgnored(v.parts) && x == Join(JoinAll(p, v.parts), v.dir.files[k]);
    }
    if accept(x) && InTree(p, d, x) {
      var rel, e, k :| Path(d, rel, e) && NoIgnored(rel) && 0 <= k < |e.files|
        && x == Join(JoinAll(p, rel), e.files[k]);
      WalkComplete(p, [], d, rel, e);
      var v := Visit([] + rel, JoinAll(p, rel), e);
      assert v in vs;
      var j :| 0 <= j < |vs| && vs[j] == v;
      InTextFilesIn(accept, v.root, v.dir.files, x);
      assert Yields(accept, vs[j], x);
    }
  }

  /** One input path contributes exactly the text files it accounts for. */
  lemma PathFilesIff(accept: string -> bool, fs: FileSystem, p: string, x: string)
    ensures x in PathFiles(accept, fs, p) <==> accept(x) && Origin(fs, p, x)
  {
    if p in fs && fs[p].Directory? {
      WalkFilesIff(accept, p, fs[p].root, x);
    }
  }

  /**
    getFiles collects a path exactly when it passes isText and some input
    path accounts for it: the input itself when that is a regular file, or a
    file in a directory below an input directory that is reached without
    entering a directory named in IGNORED_FOLDERS.
  */
  lemma CollectedIff(accept: string -> bool, fs: FileSystem, paths: seq<string>, x: string)
    ensures x in Collected(accept, fs, paths)
      <==> accept(x) && exists i :: 0 <= i < |paths| && Origin(fs, paths[i], x)
  {
    if x in Collected(accept, fs, paths) {
      CollectedSound(accept, fs, paths, x);
    }
    if accept(x) && exists i :: 0 <= i < |paths| && Origin(fs, paths[i], x) {
      var i :| 0 <= i < |paths| && Origin(fs, paths[i], x);
      CollectedComplete(accept, fs, paths, i, x);
    }
  }

  /** Whatever getFiles collects passed the test and is accounted for by some input path. */
  lemma {:induction false} CollectedSound(accept: string -> bool, fs: FileSystem, paths: seq<string>, x: string)
    requires x in Collected(accept, fs, paths)
    ensures accept(x) && exists i :: 0 <= i < |paths| && Origin(fs, paths[i], x)
  {
    var init, last := paths[..|paths| - 1], paths[|paths| - 1];
    assert Collected(accept, fs, paths) == Collected(accept, fs, init) + PathFiles(accept, fs, last);
    if x in Collected(accept, fs, init) {
      CollectedSound(accept, fs, init, x);
      var i :| 0 <= i < |init| && Origin(fs, init[i], x);
      assert paths[i] == init[i];
    } else {
      PathFilesIff(accept, fs, last, x);
      assert Origin(fs, paths[|paths| - 1], x);
    }
  }

  /** Whatever passes the test and is accounted for by input path i is collected. */
  lemma {:induction false} CollectedComplete(accept: string -> bool, fs: FileSystem, paths: seq<string>, i: nat, x: string)
    requires accept(x) && i < |paths| && Origin(fs, paths[i], x)
    ensures x in Collected(accept, fs, paths)
  {
    var init, last := paths[..|paths| - 1], paths[|paths| - 1];
    assert Collected(accept, fs, paths) == Collected(accept, fs, init) + PathFiles(accept, fs, last);
    if i < |init| {
      assert init[i] == paths[i];
      CollectedComplete(accept, fs, init, i, x);
    } else {
      PathFilesIff(accept, fs, last, x);
    }
  }

  /** Collection distributes over the input list, so overlapping inputs contribute their files twice. */
  lemma {:induction false} CollectedAppend(accept: string -> bool, fs: FileSystem, a: seq<string>, b: seq<string>)
    ensures Collected(accept, fs, a + b) == Collected(accept, fs, a) + Collected(accept, fs, b)
  {
    if b == [] {
      assert a + b == a;
    } else {
      var init, last := b[..|b| - 1], b[|b| - 1];
      CollectedAppend(accept, fs, a, init);
      assert (a + b)[..|a + b| - 1] == a + init;
      assert (a + b)[|a + b| - 1] == last;
      var front, back := Collected(accept, fs, a + init), PathFiles(accept, fs, last);
      assert Collected(accept, fs, a + b) == front + back;
      assert Collected(accept, fs, b) == Collected(accept, fs, init) + back;
      AppendAssoc(Collected(accept, fs, a), Collected(accept, fs, init), back);
    }
  }

  /** The directory `proj` of the scenario below: `keep.py`, `ignore.png` and `.git/inside.py`. */
  function ScenarioDir(): Dir {
    Dir(["keep.py", "ignore.png"], [Subdir(".git", Dir(["inside.py"], []))])
  }

  /** The file system of the scenario below: the directory `proj` and the file `proj/keep.py`. */
  function ScenarioFs(): FileSystem {
    map["proj" := Directory(ScenarioDir()), "proj/keep.py" := RegularFile]
  }

  /** The walk of `proj` never enters `.git`. */
  lemma ScenarioWalk()
    ensures Walk("proj", [], ScenarioDir()) == [Visit([], "proj", ScenarioDir())]
  {
    var d := ScenarioDir();
    assert d.subdirs[0].name == IGNORED_FOLDERS[0];
    assert d.subdirs[1..] == [];
    assert WalkSubdirs("proj", [], d.subdirs) == [];
  }

  /** Of the two files directly in `proj`, the test keeps `keep.py`. */
  lemma ScenarioTop(accept: string -> bool)
    requires accept("proj/keep.py") && !accept("proj/ignore.png")
    ensures TextFilesIn(accept, "proj", ScenarioDir().files) == ["proj/keep.py"]
  {
    TextFilesInPair(accept, "proj", "keep.py", "ignore.png");
    JoinPlain("proj", "keep.py");
    JoinPlain("proj", "ignore.png");
    assert "proj" + "/" + "keep.py" == "proj/keep.py";
    assert "proj" + "/" + "ignore.png" == "proj/ignore.png";
  }

  /** The test applied to a directory listing two names. */
  lemma TextFilesInPair(accept: string -> bool, root: string, a: string, b: string)
    ensures TextFilesIn(accept, root, [a, b])
      == (if accept(Join(root, a)) then [Join(root, a)] else [])
       + (if accept(Join(root, b)) then [Join(root, b)] else [])
  {
    assert [a, b][..1] == [a] && [a][..0] == [];
    assert TextFilesIn(accept, root, [a, b])
      == TextFilesIn(accept, root, [a]) + (if accept(Join(root, b)) then [Join(root, b)] else []);
    assert TextFilesIn(accept, root, [a]) == (if accept(Join(root, a)) then [Join(root, a)] else []);
  }

  /** What `proj` contributes: `proj/keep.py` alone. */
  lemma ScenarioProj(accept: string -> bool)
    requires accept("proj/keep.py") && !accept("proj/ignore.png")
    ensures PathFiles(accept, ScenarioFs(), "proj") == ["proj/keep.py"]
  {
    var fs, d := ScenarioFs(), ScenarioDir();
    assert "proj" in fs && fs["proj"] == Directory(d);
    ScenarioWalk();
    ScenarioTop(accept);
    WalkFilesOne(accept, Visit([], "proj", d));
  }

  /** A walk of one directory collects that directory's own files. */
  lemma WalkFilesOne(accept: string -> bool, v: Visit)
    ensures WalkFiles(accept, [v]) == TextFilesIn(accept, v.root, v.dir.files)
  {
    assert [v][..0] == [];
  }

  /** A single input path contributes what PathFiles says. */
  lemma CollectedOne(accept: string -> bool, fs: FileSystem, p: string)
    ensures Collected(accept, fs, [p]) == PathFiles(accept, fs, p)
  {
    assert [p][..0] == [];
  }

  /** The scenario for any test that accepts `proj/keep.py` and rejects `proj/ignore.png`. */
  lemma ScenarioWith(accept: string -> bool)
    requires accept("proj/keep.py") && !accept("proj/ignore.png")
    ensures Collected(accept, ScenarioFs(), ["proj"]) == ["proj/keep.py"]
    ensures Collected(accept, ScenarioFs(), ["proj", "proj/keep.py"]) == ["proj/keep.py", "proj/keep.py"]
  {
    var fs := ScenarioFs();
    ScenarioProj(accept);
    assert "proj/keep.py" in fs && fs["proj/keep.py"] == RegularFile;
    assert PathFiles(accept, fs, "proj/keep.py") == ["proj/keep.py"];
    CollectedOne(accept, fs, "proj");
    CollectedOne(accept, fs, "proj/keep.py");
    CollectedAppend(accept, fs, ["proj"], ["proj/keep.py"]);
    assert ["proj"] + ["proj/keep.py"] == ["proj", "proj/keep.py"];
  }

  /**
    Only `proj/keep.py` is collected from `proj`, since `.png` is an ignored
    suffix and `.git` is never entered; naming the file a second time
    collects it twice.
  */
  lemma Scenario(probes: Probes)
    requires probes.decodesUtf8("proj/keep.py")
    ensures Collected(TextTest(probes), ScenarioFs(), ["proj"]) == ["proj/keep.py"]
    ensures Collected(TextTest(probes), ScenarioFs(), ["proj", "proj/keep.py"]) == ["proj/keep.py", "proj/keep.py"]
  {
    IgnoredNeverText(probes, "proj/ignore.png", 13);
    KeepPyIsText(probes);
    ScenarioWith(TextTest(probes));
  }

  /** No entry of IGNORED_FILES ends `proj/keep.py` (none ends in 'y'), so the probe decides and accepts it. */
  lemma KeepPyIsText(probes: Probes)
    requires probes.decodesUtf8("proj/keep.py")
    ensures IsText(probes, "proj/keep.py")
  {
    forall i | 0 <= i < |IGNORED_FILES| ensures !EndsWith("proj/keep.py", IGNORED_FILES[i]) {
      assert IGNORED_FILES[i][|IGNORED_FILES[i]| - 1] != 'y';
    }
    OtherwiseTextIff(probes, "proj/keep.py");
  }

  /** isText with the platform's answers fixed, as the test getFiles applies. */
  function TextTest(probes: Probes): string -> bool {
    path => IsText(probes, path)
  }

  /**
    `getFiles(paths)`: every text file named by a path or found below a
    directory path, pruned directories excepted, sorted and with every
    duplicate kept.
  */
  method GetFiles(probes: Probes, fs: FileSystem, paths: seq<string>) returns (r: seq<string>)
    ensures Sorted(r)
    ensures multiset(r) == multiset(Collected(TextTest(probes), fs, paths))
    ensures forall x :: x in r <==> IsText(probes, x) && exists i :: 0 <= i < |paths| && Origin(fs, paths[i], x)
  {
    var files: seq<string> := [];
    for i := 0 to |paths|
      invariant files == Collected(TextTest(probes), fs, paths[..i])
    {
      var path := paths[i];
      if path in fs && fs[path].RegularFile? && IsText(probes, path) {
        files := files + [path];
      } else if path in fs && fs[path].Directory? {
        var found := WalkTextFiles(probes, path, fs[path].root);
        files := files + found;
      }
      assert paths[..i + 1][..i] == paths[..i];
    }
    assert paths[..|paths|] == paths;
    r := Sort(files);
    forall x ensures x in r <==> IsText(probes, x) && exists i :: 0 <= i < |paths| && Origin(fs, paths[i], x) {
      assert x in r <==> x in multiset(files);
      CollectedIff(TextTest(probes), fs, paths, x);
    }
  }

  /** The `os.walk` loop of getFiles over the directory `d` found at `path`. */
  method WalkTextFiles(probes: Probes, path: string, d: Dir) returns (files: seq<string>)
    ensures files == WalkFiles(TextTest(probes), Walk(path, [], d))
  {
    var visits := Walk(path, [], d);
    files := [];
    for j := 0 to |visits|
      invariant files == WalkFiles(TextTest(probes), visits[..j])
    {
      var found := DirTextFiles(probes, visits[j].root, visits[j].dir.files);
      files := files + found;
      assert visits[..j + 1][..j] == visits[..j];
    }
    assert visits[..|visits|] == visits;
  }

  /** The `for filename in filenames` loop of one walked directory `root`. */
  method DirTextFiles(probes: Probes, root: string, filenames: seq<string>) returns (files: seq<string>)
    ensures files == TextFilesIn(TextTest(probes), root, filenames)
  {
    files := [];
    for k := 0 to |filenames|
      invariant files == TextFilesIn(TextTest(probes), root, filenames[..k])
    {
      var fullPath := Join(root, filenames[k]);
      if IsText(probes, fullPath) {
        files := files + [fullPath];
      }
      assert filenames[..k + 1][..k] == filenames[..k];
    }
    assert filenames[..|filenames|] == filenames;
  }
}
