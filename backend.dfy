/** backend.py: Storage, the read side of a repository wrapper, and Sandbox,
    its writable working-copy side. Modelled here: the changeset selection,
    the file context lookup, the sandbox path guard and argument checks, the
    directory creation check and the rename bracket around hg_copy. The
    engine (changeset lookup, commit, the working directory) is a parameter. */
module Backend {
  import opened Text
  import opened Failures
  import opened Posix
  import opened Pmr2Ui
  import Ext

  // ---------------------------------------------------------------------------
  // Changeset selection

  /** A changeset context: a resolved changeset, or the working directory */
  datatype Ctx = Changeset(node: string) | WorkingCtx

  /** Storage._changectx without its assignment: None stands for 'tip'; an id
      the repository cannot resolve (RepoError, LookupError) is RevisionNotFound */
  function Resolve(lookup: string -> Option<string>, changeid: Option<string>): (r: Result<Ctx>)
    ensures var id := if changeid.None? then "tip" else changeid.value;
      (lookup(id).None? ==> r == Err(RevisionNotFound("revision " + id + " not found"))) &&
      (lookup(id).Some? ==> r == Ok(Changeset(lookup(id).value)))
  {
    var id := changeid.GetOr("tip");
    match lookup(id)
    case None => Err(RevisionNotFound("revision " + id + " not found"))
    case Some(node) => Ok(Changeset(node))
  }

  /** A file inside a changeset context */
  datatype FileRef = FileRef(ctx: Ctx, path: string)

  class Storage {
    /** _ctx: the context last selected */
    var ctx: Option<Ctx>
    /** repo.changectx: the node an id names, None when it names none */
    const lookup: string -> Option<string>
    /** ctx.filectx(path) finds the path (no LookupError) */
    const hasFile: (Ctx, string) -> bool

    constructor (lookup: string -> Option<string>, hasFile: (Ctx, string) -> bool)
      ensures ctx == None && this.lookup == lookup && this.hasFile == hasFile
    {
      ctx := None;
      this.lookup := lookup;
      this.hasFile := hasFile;
    }

    /** _changectx: select and remember the context; on failure the context
        selected before stays */
    method ChangeCtx(changeid: Option<string>) returns (r: Result<Ctx>)
      modifies this
      ensures r == Resolve(lookup, changeid)
      ensures r.Ok? ==> ctx == Some(r.value)
      ensures r.Err? ==> ctx == old(ctx)
    {
      r := Resolve(lookup, changeid);
      if r.Ok? {
        ctx := Some(r.value);
      }
    }

    /** _filectx: an empty path is PathNotFound before any lookup; otherwise
        the context is selected and the path looked up in it */
    method FileCtx(rev: Option<string>, path: string) returns (r: Result<FileRef>)
      modifies this
      ensures path == "" ==> r == Err(PathNotFound("path not found")) && ctx == old(ctx)
      ensures path != "" && Resolve(lookup, rev).Err? ==> r == Err(Resolve(lookup, rev).error) && ctx == old(ctx)
      ensures path != "" && Resolve(lookup, rev).Ok? ==>
        var c := Resolve(lookup, rev).value;
        ctx == Some(c) &&
        r == (if hasFile(c, path) then Ok(FileRef(c, path)) else Err(PathNotFound("path '" + path + "' not found")))
    {
      if path == "" {
        return Err(PathNotFound("path not found"));
      }
      var c :- ChangeCtx(rev);
      if !hasFile(c, path) {
        return Err(PathNotFound("path '" + path + "' not found"));
      }
      return Ok(FileRef(c, path));
    }
  }

  // ---------------------------------------------------------------------------
  // The sandbox path guard

  /** The path _fullpath checks: an absolute name as given, a relative one
      joined to the root and normalised */
  function Candidate(rpath: string, name: string): string {
    if IsAbs(name) then name else NormPath(PathJoin(rpath, name))
  }

  /** Sandbox._fullpath as written: the candidate is accepted when it starts
      with the root string */
  function FullPath(rpath: string, name: string): (r: Result<string>)
    ensures r.Ok? ==> r.value == Candidate(rpath, name) && StartsWith(r.value, rpath)
    ensures r.Err? ==> r == Err(PathInvalid("supplied path is outside repository")) &&
                       !StartsWith(Candidate(rpath, name), rpath)
  {
    var fn := Candidate(rpath, name);
    if !StartsWith(fn, rpath) then Err(PathInvalid("supplied path is outside repository"))
    else Ok(fn)
  }

  /** A relative name under an absolute root comes out normalised: no ".."
      component survives the guard. */
  lemma FullPathRelativeClean(rpath: string, name: string)
    requires IsAbs(rpath) && !IsAbs(name)
    ensures FullPath(rpath, name).Ok? ==> NoDotDot(FullPath(rpath, name).value)
  {
    NormPathRootedClean(PathJoin(rpath, name));
  }

  /** As written, an absolute name is never normalised: "/r/../x" passes the
      guard of the root "/r" although it names "/x". */
  lemma FullPathKeepsDotDot()
    ensures FullPath("/r", "/r/../x") == Ok("/r/../x")
    ensures !NoDotDot("/r/../x")
  {
    assert StartsWith("/r/../x", "/r");
    SplitUpX();
    SplitCons('r', "/../x", '/');
    assert "r/../x" == ['r'] + "/../x";
    assert ['r'] + "" == "r";
    assert Split("r/../x", '/') == ["r", "..", "x"];
    SplitCons('/', "r/../x", '/');
    assert "/r/../x" == ['/'] + "r/../x";
    assert Split("/r/../x", '/') == ["", "r", "..", "x"];
  }

  lemma SplitUpX()
    ensures Split("/../x", '/') == ["", "..", "x"]
  {
    SplitCons('x', "", '/');
    assert "x" == ['x'] + "";
    assert Split("x", '/') == ["x"];
    SplitCons('/', "x", '/');
    assert "/x" == ['/'] + "x";
    assert Split("/x", '/') == ["", "x"];
    SplitCons('.', "/x", '/');
    assert "./x" == ['.'] + "/x";
    assert ['.'] + "" == ".";
    assert Split("./x", '/') == [".", "x"];
    SplitCons('.', "./x", '/');
    assert "../x" == ['.'] + "./x";
    assert ['.'] + "." == "..";
    assert Split("../x", '/') == ["..", "x"];
    SplitCons('/', "../x", '/');
    assert "/../x" == ['/'] + "../x";
  }

  /** As written, the prefix test has no separator: the root "/r" lets its
      sibling "/rx" through. */
  lemma FullPathAcceptsSibling()
    ensures FullPath("/r", "/rx") == Ok("/rx")
    ensures !Inside("/rx", "/r")
  {
    assert StartsWith("/rx", "/r");
    assert "/rx"[2] == 'x';
  }

  /** The root as a directory prefix: with exactly the trailing slash it
      needs */
  function DirPrefix(root: string): (d: string)
    ensures StartsWith(d, root) && |d| > 0 && d[|d| - 1] == '/'
  {
    if root != [] && root[|root| - 1] == '/' then root else root + "/"
  }

  /** p is the root itself or lies below it */
  predicate Inside(p: string, root: string) {
    p == root || StartsWith(p, DirPrefix(root))
  }

  /** The guard as intended: every name is normalised, absolute or not, and the
      result must be the normalised root or lie below it, component-wise. The
      root is normalised too, since the storage keeps it as it was given. */
  function FullPathContained(rpath: string, name: string): (r: Result<string>)
    ensures r.Ok? <==> Inside(NormPath(PathJoin(rpath, name)), NormPath(rpath))
    ensures r.Ok? ==> r.value == NormPath(PathJoin(rpath, name))
    ensures r.Err? ==> r.error == PathInvalid("supplied path is outside repository")
    ensures IsAbs(rpath) && r.Ok? ==> NoDotDot(r.value)
  {
    var fn := NormPath(PathJoin(rpath, name));
    assert IsAbs(rpath) ==> NoDotDot(fn) by {
      if IsAbs(rpath) {
        NormPathRootedClean(PathJoin(rpath, name));
      }
    }
    if !Inside(fn, NormPath(rpath)) then Err(PathInvalid("supplied path is outside repository"))
    else Ok(fn)
  }

  /** normpath leaves "/n" alone for an ordinary name n */
  lemma NormPathOneName(n: string)
    requires n != "" && n != "." && n != ".." && '/' !in n
    ensures NormPath("/" + n) == "/" + n
  {
    var p := "/" + n;
    SplitAppend("", '/', n);
    assert "" + ['/'] + n == p;
    SplitSingle(n, '/');
    assert Split(p, '/') == ["", n];
    assert p[1] == n[0];
    assert InitialSlashes(p) == 1;
    var cs := ["", n];
    assert cs[1..] == [n] && cs[1..][1..] == [];
    assert NormStep([], n, true) == [n];
    assert NormFold([n], true, []) == [n];
    assert NormFold(cs, true, []) == [n];
    assert Join([n], '/') == n;
  }

  /** The corrected guard refuses the sibling the written one lets through. */
  lemma ContainedRefusesSibling()
    ensures FullPathContained("/r", "/rx").Err?
  {
    NormPathOneName("rx");
    NormPathOneName("r");
    assert PathJoin("/r", "/rx") == "/rx";
    assert "/rx"[2] == 'x';
  }

  lemma SplitSlashedR()
    ensures Split("/r/", '/') == ["", "r", ""]
  {
    assert Split("", '/') == [""];
    SplitCons('/', "", '/');
    assert "/" == ['/'] + "";
    assert Split("/", '/') == ["", ""];
    SplitCons('r', "/", '/');
    assert "r/" == ['r'] + "/" && ['r'] + "" == "r";
    assert Split("r/", '/') == ["r", ""];
    SplitCons('/', "r/", '/');
    assert "/r/" == ['/'] + "r/";
  }

  /** normpath drops the trailing slash of "/r/" */
  lemma NormPathSlashedR()
    ensures NormPath("/r/") == "/r"
  {
    SplitSlashedR();
    assert InitialSlashes("/r/") == 1;
    var cs := ["", "r", ""];
    assert cs[1..] == ["r", ""] && cs[1..][1..] == [""] && cs[1..][1..][1..] == [];
    assert NormFold(cs, true, []) == ["r"];
    assert Join(["r"], '/') == "r";
  }

  /** A root kept with a trailing slash still admits the names below it. */
  lemma ContainedSlashedRoot()
    ensures FullPathContained("/r/", "a") == Ok("/r/a")
  {
    NormPathTwoNames('r', 'a');
    NormPathSlashedR();
    assert PathJoin("/r/", "a") == ['/', 'r', '/', 'a'];
    assert StartsWith(['/', 'r', '/', 'a'], "/r/");
  }

  /** Which path guard an operation applies: _fullpath as written, or the
      guard as intended */
  datatype Guard = AsWritten | Contained

  function Guarded(g: Guard, rpath: string, name: string): (r: Result<string>)
    ensures r.Err? ==> r.error == PathInvalid("supplied path is outside repository")
  {
    match g
    case AsWritten => FullPath(rpath, name)
    case Contained => FullPathContained(rpath, name)
  }

  // ---------------------------------------------------------------------------
  // Argument checks

  /** The Python values a caller may pass where a path or a list of paths is expected */
  datatype PyValue = Str(s: string) | List(items: seq<PyValue>) | Other

  predicate AllStrings(items: seq<PyValue>) {
    forall i :: 0 <= i < |items| ==> items[i].Str?
  }

  /** _source_check: a string becomes a one-element list, a list of strings
      stays as it is, anything else is a TypeError */
  function SourceCheck(v: PyValue): (r: Result<seq<string>>)
    ensures v.Str? ==> r == Ok([v.s])
    ensures v.Other? ==> r == Err(TypeError("source must be either a list of strings or a string"))
    ensures v.List? ==> (r.Ok? <==> AllStrings(v.items))
    ensures v.List? && r.Ok? ==> |r.value| == |v.items| && forall i :: 0 <= i < |v.items| ==> r.value[i] == v.items[i].s
    ensures v.List? && r.Err? ==> r.error == TypeError("invalid type present in source list")
  {
    match v
    case Str(s) => Ok([s])
    case Other => Err(TypeError("source must be either a list of strings or a string"))
    case List(items) =>
      if AllStrings(items) then Ok(seq(|items|, i requires 0 <= i < |items| => items[i].s))
      else Err(TypeError("invalid type present in source list"))
  }

  /** set(source), in first-occurrence order: the same paths, each once */
  function Dedup(s: seq<string>): (r: seq<string>)
    ensures forall x :: x in r <==> x in s
    ensures forall i, j :: 0 <= i < j < |r| ==> r[i] != r[j]
    decreases |s|
  {
    if s == [] then []
    else
      var init := Dedup(s[..|s| - 1]);
      var last := s[|s| - 1];
      assert forall x :: x in s <==> x in s[..|s| - 1] || x == last;
      if last in init then init else init + [last]
  }

  /** _filter_paths: the full paths of the names that pass the guard g and
      exist, in input order; the others are dropped silently */
  function FilterPaths(g: Guard, rpath: string, present: string -> bool, paths: seq<string>): (r: seq<string>)
    ensures |r| <= |paths|
    decreases |paths|
  {
    if paths == [] then []
    else
      var init := FilterPaths(g, rpath, present, paths[..|paths| - 1]);
      var f := Guarded(g, rpath, paths[|paths| - 1]);
      if f.Ok? && present(f.value) then init + [f.value] else init
  }

  /** What _filter_paths keeps is exactly the guarded, existing full path of
      some input name. */
  lemma {:induction false} FilterPathsKeeps(g: Guard, rpath: string, present: string -> bool, paths: seq<string>)
    ensures forall x :: x in FilterPaths(g, rpath, present, paths) <==>
      (present(x) && exists p :: p in paths && Guarded(g, rpath, p) == Ok(x))
    decreases |paths|
  {
    if paths != [] {
      var init := paths[..|paths| - 1];
      var last := paths[|paths| - 1];
      FilterPathsKeeps(g, rpath, present, init);
      assert forall p :: p in paths <==> p in init || p == last;
    }
  }

  /** _filter_paths keeps input order and multiplicity: filtering a
      concatenation filters each part in turn. */
  lemma {:induction false} FilterPathsAppend(g: Guard, rpath: string, present: string -> bool, a: seq<string>, b: seq<string>)
    ensures FilterPaths(g, rpath, present, a + b) == FilterPaths(g, rpath, present, a) + FilterPaths(g, rpath, present, b)
    decreases |b|
  {
    if b == [] {
      assert a + b == a;
    } else {
      var init, last := b[..|b| - 1], b[|b| - 1];
      var ab := a + b;
      assert ab[..|ab| - 1] == a + init && ab[|ab| - 1] == last;
      FilterPathsAppend(g, rpath, present, a, init);
      FilterPathsLast(g, rpath, present, ab);
      FilterPathsLast(g, rpath, present, b);
      var x, y, z := FilterPaths(g, rpath, present, a), FilterPaths(g, rpath, present, init),
                     FilterPaths(g, rpath, present, [last]);
      assert FilterPaths(g, rpath, present, ab) == (x + y) + z;
      ConcatAssoc(x, y, z);
    }
  }

  lemma ConcatAssoc(x: seq<string>, y: seq<string>, z: seq<string>)
    ensures (x + y) + z == x + (y + z)
  {
  }

  lemma FilterPathsLast(g: Guard, rpath: string, present: string -> bool, paths: seq<string>)
    requires paths != []
    ensures FilterPaths(g, rpath, present, paths) ==
      FilterPaths(g, rpath, present, paths[..|paths| - 1]) + FilterPaths(g, rpath, present, [paths[|paths| - 1]])
  {
    assert [paths[|paths| - 1]][..0] == [];
  }

  /** One name is kept, as its guarded full path, exactly when it passes the
      guard and exists. */
  lemma FilterPathsOne(g: Guard, rpath: string, present: string -> bool, p: string)
    ensures var f := Guarded(g, rpath, p);
      FilterPaths(g, rpath, present, [p]) == (if f.Ok? && present(f.value) then [f.value] else [])
  {
    assert [p][..0] == [];
  }

  /** Downstream of the guard: _filter_paths as written keeps the existing
      sibling "/rx" of the root "/r"; with the contained guard it is dropped. */
  lemma FilterPathsSibling()
    ensures FilterPaths(AsWritten, "/r", p => p == "/rx", ["/rx"]) == ["/rx"]
    ensures FilterPaths(Contained, "/r", p => p == "/rx", ["/rx"]) == []
  {
    FullPathAcceptsSibling();
    ContainedRefusesSibling();
    assert ["/rx"][..0] == [];
  }

  // ---------------------------------------------------------------------------
  // Sandbox

  /** The id a sandbox caller selects: the working directory (_cwd) or an id
      handled as Storage does */
  datatype Rev = Cwd | Id(changeid: Option<string>)

  /** mkdir on the file system fs: the guarded path is created when it does not
      exist (a failing makedirs is PathInvalid), must be a directory when it
      does (PathExists otherwise); the new file system comes with the result. */
  function MkdirSpec(g: Guard, rpath: string, fs: Ext.FileSystem, makedirs: string -> bool, dirname: string)
    : (Result<bool>, Ext.FileSystem)
  {
    var f := Guarded(g, rpath, dirname);
    if f.Err? then (Err(f.error), fs) else MkdirAt(fs, makedirs, f.value)
  }

  /** mkdir once the path fn is guarded */
  function MkdirAt(fs: Ext.FileSystem, makedirs: string -> bool, fn: string): (Result<bool>, Ext.FileSystem) {
    if !fs.present(fn) then
      if makedirs(fn) then (Ok(true), Created(fs, fn))
      else (Err(PathInvalid("cannot create directory with specified path")), fs)
    else if !fs.isdir(fn) then (Err(PathExists("cannot create directory; path already exists")), fs)
    else (Ok(true), fs)
  }

  /** fs with directory d created */
  function Created(fs: Ext.FileSystem, d: string): Ext.FileSystem {
    fs.(present := p => p == d || fs.present(p), isdir := p => p == d || fs.isdir(p))
  }

  /** After a successful mkdir the guarded path is an existing directory, and
      nothing else on the file system changed; after a failed one nothing did. */
  lemma MkdirMakesDir(g: Guard, rpath: string, fs: Ext.FileSystem, makedirs: string -> bool, dirname: string)
    ensures var (r, fs') := MkdirSpec(g, rpath, fs, makedirs, dirname);
      (r.Ok? ==> var fn := Guarded(g, rpath, dirname).value;
         fs'.present(fn) && fs'.isdir(fn) &&
         forall p :: p != fn ==> fs'.present(p) == fs.present(p) && fs'.isdir(p) == fs.isdir(p)) &&
      (r.Err? ==> fs' == fs)
  {
    var f := Guarded(g, rpath, dirname);
    if f.Ok? {
      assert MkdirSpec(g, rpath, fs, makedirs, dirname) == MkdirAt(fs, makedirs, f.value);
    }
  }

  /** What rename does once its arguments are accepted: nothing, or hg_copy of
      the surviving sources into the guarded destination */
  datatype RenamePlan = NoSource | CopyTo(pats: seq<string>, fdest: string)

  /** The argument checks of rename, in their order: the source type, the
      destination type, then the destination guard (even with no surviving
      source), then a single source onto an existing file. */
  function RenamePrecheck(g: Guard, rpath: string, fs: Ext.FileSystem, source: PyValue, dest: PyValue): Result<RenamePlan>
  {
    var srcs :- SourceCheck(source);
    if !dest.Str? then Err(TypeError("dest must be of type string"))
    else
      var pats := FilterPaths(g, rpath, fs.present, Dedup(srcs));
      var fdest :- Guarded(g, rpath, dest.s);
      PlanOf(fs, pats, fdest)
  }

  /** The end of the checks: nothing to do, a single source onto an existing
      file, or the copy */
  function PlanOf(fs: Ext.FileSystem, pats: seq<string>, fdest: string): Result<RenamePlan> {
    if pats == [] then Ok(NoSource)
    else if |pats| == 1 && fs.present(fdest) && !fs.isdir(fdest) then
      Err(PathNotDir("destination exists and is not a directory"))
    else Ok(CopyTo(pats, fdest))
  }

  /** The type checks of rename come first, source before destination. */
  lemma RenamePrecheckTypes(g: Guard, rpath: string, fs: Ext.FileSystem, source: PyValue, dest: PyValue)
    ensures var r := RenamePrecheck(g, rpath, fs, source, dest);
      (SourceCheck(source).Err? ==> r == Err(SourceCheck(source).error)) &&
      (SourceCheck(source).Ok? && !dest.Str? ==> r == Err(TypeError("dest must be of type string")))
  {
  }

  /** An accepted rename has a guarded destination; it has nothing to do
      exactly when no source survives, and otherwise copies the surviving
      sources, a single one never onto an existing file. */
  lemma RenamePrecheckPlan(g: Guard, rpath: string, fs: Ext.FileSystem, source: PyValue, dest: PyValue)
    ensures var r := RenamePrecheck(g, rpath, fs, source, dest);
      r.Ok? ==>
        dest.Str? && Guarded(g, rpath, dest.s).Ok? && SourceCheck(source).Ok? &&
        var pats := FilterPaths(g, rpath, fs.present, Dedup(SourceCheck(source).value));
        (r.value.NoSource? <==> pats == []) &&
        (r.value.CopyTo? ==>
           r.value.pats == pats && r.value.fdest == Guarded(g, rpath, dest.s).value &&
           (|pats| == 1 ==> !(fs.present(r.value.fdest) && !fs.isdir(r.value.fdest))))
  {
    if RenamePrecheck(g, rpath, fs, source, dest).Ok? {
      RenamePrecheckAccepts(g, rpath, fs, source, dest);
      PlanOfFacts(fs, FilterPaths(g, rpath, fs.present, Dedup(SourceCheck(source).value)),
                  Guarded(g, rpath, dest.s).value);
    }
  }

  /** An accepted rename passed both type checks and the destination guard,
      and its plan is PlanOf the surviving sources and the guarded destination. */
  lemma RenamePrecheckAccepts(g: Guard, rpath: string, fs: Ext.FileSystem, source: PyValue, dest: PyValue)
    requires RenamePrecheck(g, rpath, fs, source, dest).Ok?
    ensures SourceCheck(source).Ok? && dest.Str? && Guarded(g, rpath, dest.s).Ok?
    ensures RenamePrecheck(g, rpath, fs, source, dest) ==
      PlanOf(fs, FilterPaths(g, rpath, fs.present, Dedup(SourceCheck(source).value)), Guarded(g, rpath, dest.s).value)
  {
  }

  lemma PlanOfFacts(fs: Ext.FileSystem, pats: seq<string>, fdest: string)
    ensures var r := PlanOf(fs, pats, fdest);
      r.Ok? ==>
        (r.value.NoSource? <==> pats == []) &&
        (r.value.CopyTo? ==>
          r.value.pats == pats && r.value.fdest == fdest &&
          (|pats| == 1 ==> !(fs.present(fdest) && !fs.isdir(fdest))))
  {
  }

  /** With well-typed arguments and a guarded destination, PathNotDir is
      raised exactly for a single surviving source onto an existing file. */
  lemma RenamePrecheckNotDir(g: Guard, rpath: string, fs: Ext.FileSystem, source: PyValue, dest: PyValue)
    requires SourceCheck(source).Ok? && dest.Str? && Guarded(g, rpath, dest.s).Ok?
    ensures var pats := FilterPaths(g, rpath, fs.present, Dedup(SourceCheck(source).value));
      var fdest := Guarded(g, rpath, dest.s).value;
      |pats| == 1 && fs.present(fdest) && !fs.isdir(fdest) <==>
        RenamePrecheck(g, rpath, fs, source, dest) == Err(PathNotDir("destination exists and is not a directory"))
  {
  }

  /** The outcome of rename: its result, the file-system view with the
      destination directory rename may have made (the copies hg_copy makes
      are not part of that single snapshot), and, when hg_copy aborted, the
      warnings it had written to the pushed buffer */
  datatype RenameOutcome = RenameOutcome(result: Result<(seq<string>, seq<string>)>, fs: Ext.FileSystem,
                                         aborted: Option<seq<string>>)

  /** rename: the prechecks, mkdir of the destination for several sources,
      then hg_copy with after off; the warnings it writes are returned sorted,
      with the sources it reports as moved. */
  function RenameSpec(g: Guard, rpath: string, makedirs: string -> bool, repo: Ext.Repo, source: PyValue, dest: PyValue,
                      force: bool): RenameOutcome
  {
    var pre := RenamePrecheck(g, rpath, repo.fs, source, dest);
    if pre.Err? then RenameOutcome(Err(pre.error), repo.fs, None)
    else if pre.value.NoSource? then RenameOutcome(Ok(([], [])), repo.fs, None)
    else
      var pats, fdest := pre.value.pats, pre.value.fdest;
      var mk := if |pats| > 1 then MkdirSpec(g, rpath, repo.fs, makedirs, fdest) else (Ok(true), repo.fs);
      if mk.0.Err? then RenameOutcome(Err(mk.0.error), mk.1, None)
      else
        var run := Ext.HgCopySpec(repo.(fs := mk.1), pats + [fdest], force, false);
        if run.result.Err? then RenameOutcome(Err(run.result.error), mk.1, Some(run.warns))
        else RenameOutcome(Ok((SortSeq(run.warns), run.result.value.1)), mk.1, None)
  }

  /** rename once its checks pass and any mkdir it needs succeeded: the
      outcome is hg_copy's over the file system that mkdir left. */
  lemma RenameSpecCopy(g: Guard, rpath: string, makedirs: string -> bool, repo: Ext.Repo, source: PyValue, dest: PyValue,
                       force: bool, pats: seq<string>, fdest: string, fs': Ext.FileSystem)
    requires RenamePrecheck(g, rpath, repo.fs, source, dest) == Ok(CopyTo(pats, fdest))
    requires var mk := if |pats| > 1 then MkdirSpec(g, rpath, repo.fs, makedirs, fdest) else (Ok(true), repo.fs);
      mk.0.Ok? && mk.1 == fs'
    ensures var run := Ext.HgCopySpec(repo.(fs := fs'), pats + [fdest], force, false);
      RenameSpec(g, rpath, makedirs, repo, source, dest, force) ==
        if run.result.Err? then RenameOutcome(Err(run.result.error), fs', Some(run.warns))
        else RenameOutcome(Ok((SortSeq(run.warns), run.result.value.1)), fs', None)
  {
  }

  /** rename with no surviving source does nothing and returns two empty lists. */
  lemma RenameNoSource(g: Guard, rpath: string, makedirs: string -> bool, repo: Ext.Repo, source: PyValue, dest: PyValue,
                       force: bool)
    requires RenamePrecheck(g, rpath, repo.fs, source, dest) == Ok(NoSource)
    ensures RenameSpec(g, rpath, makedirs, repo, source, dest, force) == RenameOutcome(Ok(([], [])), repo.fs, None)
  {
  }

  /** The warnings rename returns are sorted, and they are the ones hg_copy
      wrote, each as often as it wrote it. */
  lemma RenameErrorsSorted(g: Guard, rpath: string, makedirs: string -> bool, repo: Ext.Repo, source: PyValue, dest: PyValue,
                           force: bool, pats: seq<string>, fdest: string)
    requires RenamePrecheck(g, rpath, repo.fs, source, dest) == Ok(CopyTo(pats, fdest))
    ensures var o := RenameSpec(g, rpath, makedirs, repo, source, dest, force);
      var run := Ext.HgCopySpec(repo.(fs := o.fs), pats + [fdest], force, false);
      o.result.Ok? ==>
        Ordered(o.result.value.0) && multiset(o.result.value.0) == multiset(run.warns) &&
        run.result.Ok? && o.result.value.1 == run.result.value.1
  {
    var mk := if |pats| > 1 then MkdirSpec(g, rpath, repo.fs, makedirs, fdest) else (Ok(true), repo.fs);
    var o := RenameSpec(g, rpath, makedirs, repo, source, dest, force);
    if mk.0.Ok? {
      var run := Ext.HgCopySpec(repo.(fs := mk.1), pats + [fdest], force, false);
      assert o == if run.result.Err? then RenameOutcome(Err(run.result.error), mk.1, Some(run.warns))
                  else RenameOutcome(Ok((SortSeq(run.warns), run.result.value.1)), mk.1, None);
    } else {
      assert o.result.Err?;
    }
  }

  /** A single source whose copy aborts: rename fails with hg_copy's error and
      the warnings hg_copy wrote are left in the pushed buffer. */
  lemma RenameAbortsWith(g: Guard, rpath: string, makedirs: string -> bool, repo: Ext.Repo, source: PyValue, dest: PyValue,
                         force: bool, pat: string, fdest: string)
    requires RenamePrecheck(g, rpath, repo.fs, source, dest) == Ok(CopyTo([pat], fdest))
    requires Ext.HgCopySpec(repo, [pat, fdest], force, false).result.Err?
    ensures var run := Ext.HgCopySpec(repo, [pat, fdest], force, false);
      RenameSpec(g, rpath, makedirs, repo, source, dest, force) ==
        RenameOutcome(Err(run.result.error), repo.fs, Some(run.warns))
  {
    RenameSpecCopy(g, rpath, makedirs, repo, source, dest, force, [pat], fdest, repo.fs);
    assert repo.(fs := repo.fs) == repo;
    assert [pat] + [fdest] == [pat, fdest];
  }

  /** The working copy of a repository rooted at "/r" that holds one file,
      "a", which was never added */
  function UntrackedOnly(): Ext.Repo {
    Ext.Repo(p => [Ext.Source("a", "a", true)], p => '?', p => "", p => false, p => p, p => p, p => p,
             Ext.FileSystem(p => p == "/r/a", p => false, p => false), (a, b) => Ext.Copied)
  }

  lemma SplitTwoNames(x: char, y: char)
    requires x != '/' && y != '/'
    ensures Split(['/', x, '/', y], '/') == ["", [x], [y]]
  {
    SplitCons(y, "", '/');
    assert [y] + "" == [y];
    SplitCons('/', [y], '/');
    assert ['/'] + [y] == ['/', y];
    SplitCons(x, ['/', y], '/');
    assert [x] + ['/', y] == [x, '/', y] && [x] + "" == [x];
    SplitCons('/', [x, '/', y], '/');
    assert ['/'] + [x, '/', y] == ['/', x, '/', y];
  }

  /** normpath leaves "/x/y" alone when x and y are ordinary one-letter names */
  lemma NormPathTwoNames(x: char, y: char)
    requires x != '/' && x != '.' && y != '/' && y != '.'
    ensures NormPath(['/', x, '/', y]) == ['/', x, '/', y]
  {
    var p := ['/', x, '/', y];
    SplitTwoNames(x, y);
    assert !StartsWith(p, "//");
    assert InitialSlashes(p) == 1;
    assert Slashes(1) == "/";
    assert NormStep([], "", true) == [];
    assert NormStep([], [x], true) == [[x]];
    assert NormStep([[x]], [y], true) == [[x], [y]];
    var cs := ["", [x], [y]];
    assert cs[1..] == [[x], [y]] && cs[1..][1..] == [[y]] && cs[1..][1..][1..] == [];
    assert NormFold([], true, [[x], [y]]) == [[x], [y]];
    assert NormFold([[y]], true, [[x]]) == [[x], [y]];
    assert NormFold([[x], [y]], true, []) == [[x], [y]];
    assert NormFold(cs, true, []) == [[x], [y]];
    assert Join([[x], [y]], '/') == [x, '/', y];
  }

  /** Either guard of the root "/r" accepts an ordinary one-letter name as "/r/x". */
  lemma GuardOneName(g: Guard, x: char)
    requires x != '/' && x != '.'
    ensures Guarded(g, "/r", [x]) == Ok(['/', 'r', '/', x])
  {
    NormPathTwoNames('r', x);
    NormPathOneName("r");
    assert PathJoin("/r", [x]) == ['/', 'r', '/', x];
    assert StartsWith(['/', 'r', '/', x], "/r" + "/");
  }

  /** Under either guard, the one source "a" of the untracked repository survives. */
  lemma UntrackedFilter(g: Guard)
    ensures FilterPaths(g, "/r", UntrackedOnly().fs.present, Dedup(["a"])) == ["/r/a"]
  {
    GuardOneName(g, 'a');
    assert "a" == ['a'] && "/r/a" == ['/', 'r', '/', 'a'];
    assert Dedup(["a"]) == ["a"];
    assert ["a"][..0] == [];
  }

  lemma UntrackedPrecheck(g: Guard)
    ensures RenamePrecheck(g, "/r", UntrackedOnly().fs, Str("a"), Str("b")) == Ok(CopyTo(["/r/a"], "/r/b"))
  {
    var fs := UntrackedOnly().fs;
    UntrackedFilter(g);
    GuardOneName(g, 'b');
    assert "b" == ['b'] && "/r/b" == ['/', 'r', '/', 'b'];
    assert !fs.present("/r/b") by {
      assert "/r/b"[3] != "/r/a"[3];
    }
    assert SourceCheck(Str("a")) == Ok(["a"]);
    assert RenamePrecheck(g, "/r", fs, Str("a"), Str("b")) == PlanOf(fs, ["/r/a"], "/r/b");
  }

  lemma UntrackedWalk()
    ensures Ext.WalkHits(UntrackedOnly(), [Ext.Source("a", "a", true)]) ==
      Ext.WalkResult([], ["a" + ": " + "not copying - file is not managed" + "\n"], [("a", "not copying - file is not managed")])
  {
    var repo := UntrackedOnly();
    var hits := [Ext.Source("a", "a", true)];
    assert hits[..0] == [];
    assert Ext.WalkHits(repo, []) == Ext.WalkResult([], [], []);
    assert Ext.Skipped(repo, "a");
  }

  lemma UntrackedCopy()
    ensures Ext.HgCopySpec(UntrackedOnly(), ["/r/a", "/r/b"], false, false) ==
      Ext.CopyRun(Err(Abort("no files to copy")), ["a" + ": " + "not copying - file is not managed" + "\n"])
  {
    var repo := UntrackedOnly();
    var pats := ["/r/a", "/r/b"];
    assert pats[..1] == ["/r/a"];
    assert "/r/b"[3] == 'b';
    assert Ext.CopyArgs(repo, pats) == Ok((["/r/a"], "/r/b", false));
    assert repo.walk("/r/a") == [Ext.Source("a", "a", true)];
    UntrackedWalk();
    assert ["/r/a"][..0] == [];
    var w := Ext.WalkPats(repo, ["/r/a"]);
    assert w.copylist == [];
    assert w.warns == ["a" + ": " + "not copying - file is not managed" + "\n"];
  }

  /** Renaming an untracked file: the arguments pass, but hg_copy skips the
      file and aborts with "no files to copy" after writing one warning. */
  lemma RenameUntrackedAborts(g: Guard, makedirs: string -> bool)
    ensures var o := RenameSpec(g, "/r", makedirs, UntrackedOnly(), Str("a"), Str("b"), false);
      o.result == Err(Abort("no files to copy")) && o.aborted == Some(["a" + ": " + "not copying - file is not managed" + "\n"])
  {
    UntrackedPrecheck(g);
    UntrackedCopy();
    RenameAbortsWith(g, "/r", makedirs, UntrackedOnly(), Str("a"), Str("b"), false, "/r/a", "/r/b");
  }

  class Sandbox {
    var ctx: Option<Ctx>
    const lookup: string -> Option<string>
    /** _rpath: the repository root */
    const rpath: string
    /** _ui: the error-buffering user interface shared with the engine */
    const ui: Ui
    /** The repository and the working directory as hg_copy sees them */
    var repo: Ext.Repo
    /** os.makedirs succeeds on the path */
    const makedirs: string -> bool
    /** repo.commit(message, user): the new changeset id, or None when nothing changed */
    const commitRepo: (string, string) -> Option<string>

    constructor (lookup: string -> Option<string>, rpath: string, ui: Ui, repo: Ext.Repo,
                 makedirs: string -> bool, commitRepo: (string, string) -> Option<string>)
      ensures ctx == None && this.lookup == lookup && this.rpath == rpath && this.ui == ui
      ensures this.repo == repo && this.makedirs == makedirs && this.commitRepo == commitRepo
    {
      ctx := None;
      this.lookup := lookup;
      this.rpath := rpath;
      this.ui := ui;
      this.repo := repo;
      this.makedirs := makedirs;
      this.commitRepo := commitRepo;
    }

    /** Sandbox._changectx: _cwd selects the working directory; any other id
        is resolved as Storage does */
    method ChangeCtx(changeid: Rev) returns (r: Result<Ctx>)
      modifies this
      ensures changeid.Cwd? ==> r == Ok(WorkingCtx) && ctx == Some(WorkingCtx)
      ensures changeid.Id? ==> r == Resolve(lookup, changeid.changeid)
      ensures r.Ok? ==> ctx == Some(r.value)
      ensures r.Err? ==> ctx == old(ctx)
      ensures repo == old(repo)
    {
      if changeid.Cwd? {
        ctx := Some(WorkingCtx);
        return Ok(WorkingCtx);
      }
      r := Resolve(lookup, changeid.changeid);
      if r.Ok? {
        ctx := Some(r.value);
      }
    }

    /** commit: an empty message or user is a ValueError before the repository
        is touched; a new changeset becomes the selected context. */
    method Commit(message: string, user: string) returns (r: Result<Option<string>>)
      modifies this
      ensures message == "" ==> r == Err(ValueError("message cannot be empty")) && ctx == old(ctx)
      ensures message != "" && user == "" ==> r == Err(ValueError("user cannot be empty")) && ctx == old(ctx)
      ensures message != "" && user != "" && commitRepo(message, user).None? ==> r == Ok(None) && ctx == old(ctx)
      ensures message != "" && user != "" && commitRepo(message, user).Some? ==>
        var res := Resolve(lookup, commitRepo(message, user));
        (res.Ok? ==> r == Ok(commitRepo(message, user)) && ctx == Some(res.value)) &&
        (res.Err? ==> r == Err(res.error) && ctx == old(ctx))
      ensures repo == old(repo)
    {
      if message == "" {
        return Err(ValueError("message cannot be empty"));
      }
      if user == "" {
        return Err(ValueError("user cannot be empty"));
      }
      var result := commitRepo(message, user);
      if result.Some? {
        var c :- ChangeCtx(Id(result));
      }
      return Ok(result);
    }

    /** mkdir behind the guard g: AsWritten is the sandbox's own mkdir, and
        the corrected rename calls it with Contained */
    method Mkdir(g: Guard, dirname: string) returns (r: Result<bool>)
      modifies this
      ensures var (res, fs) := MkdirSpec(g, rpath, old(repo).fs, makedirs, dirname);
        r == res && repo == old(repo).(fs := fs)
      ensures ctx == old(ctx)
    {
      var fn :- Guarded(g, rpath, dirname);
      if !repo.fs.present(fn) {
        if !makedirs(fn) {
          return Err(PathInvalid("cannot create directory with specified path"));
        }
        repo := repo.(fs := Created(repo.fs, fn));
      } else if !repo.fs.isdir(fn) {
        return Err(PathExists("cannot create directory; path already exists"));
      }
      return Ok(true);
    }

    /** The checks of rename up to hg_copy behind the guard g, with the mkdir
        a several-source rename needs */
    method RenamePrepare(g: Guard, source: PyValue, dest: PyValue) returns (r: Result<RenamePlan>)
      modifies this
      ensures var pre := RenamePrecheck(g, rpath, old(repo).fs, source, dest);
        var mk := if pre.Ok? && pre.value.CopyTo? && |pre.value.pats| > 1
                  then MkdirSpec(g, rpath, old(repo).fs, makedirs, pre.value.fdest) else (Ok(true), old(repo).fs);
        repo == old(repo).(fs := mk.1) &&
        r == (if pre.Err? then Err(pre.error) else if mk.0.Err? then Err(mk.0.error) else pre)
      ensures ctx == old(ctx)
    {
      var plan :- RenamePrecheck(g, rpath, repo.fs, source, dest);
      if plan.CopyTo? && |plan.pats| > 1 {
        var made := Mkdir(g, plan.fdest);
        if made.Err? {
          return Err(made.error);
        }
      }
      return Ok(plan);
    }

    /** hg_copy run inside a freshly pushed error buffer, which is left on
        the stack holding the warnings it wrote */
    method CopyIntoBuffer(pats: seq<string>, force: bool) returns (r: Result<(seq<(string, string)>, seq<string>)>)
      modifies ui
      ensures var run := Ext.HgCopySpec(repo, pats, force, false);
        r == run.result && ui.written == old(ui.written) && ui.errors == old(ui.errors) + [run.warns]
    {
      ghost var e0 := ui.errors;
      ui.PushErrors();
      r := Ext.HgCopy(ui, repo, pats, force, false);
      PushWritePop(e0, Ext.HgCopySpec(repo, pats, force, false).warns);
    }

    /** The end of rename as written: the buffer is popped, and the warnings
        returned sorted, only when hg_copy succeeds. */
    method CopyKeepingAbort(pats: seq<string>, force: bool) returns (r: Result<(seq<string>, seq<string>)>)
      modifies ui
      ensures var run := Ext.HgCopySpec(repo, pats, force, false);
        r == (if run.result.Err? then Err(run.result.error) else Ok((SortSeq(run.warns), run.result.value.1))) &&
        ui.written == old(ui.written) &&
        ui.errors == old(ui.errors) + (if run.result.Err? then [run.warns] else [])
    {
      var copied := CopyIntoBuffer(pats, force);
      if copied.Err? {
        return Err(copied.error);
      }
      var popped := ui.PopErrors();
      return Ok((SortSeq(popped.value), copied.value.1));
    }

    /** The end of rename: the buffer is popped whatever hg_copy does. */
    method CopyPopped(pats: seq<string>, force: bool) returns (r: Result<(seq<string>, seq<string>)>)
      modifies ui
      ensures var run := Ext.HgCopySpec(repo, pats, force, false);
        r == (if run.result.Err? then Err(run.result.error) else Ok((SortSeq(run.warns), run.result.value.1))) &&
        ui.written == old(ui.written) && ui.errors == old(ui.errors)
    {
      var copied := CopyIntoBuffer(pats, force);
      var popped := ui.PopErrors();
      if copied.Err? {
        return Err(copied.error);
      }
      return Ok((SortSeq(popped.value), copied.value.1));
    }

    /** rename as written: the paths pass _fullpath, and when hg_copy aborts
        the error buffer pushed for it is never popped. */
    method RenameAsWritten(source: PyValue, dest: PyValue, force: bool) returns (r: Result<(seq<string>, seq<string>)>)
      modifies this, ui
      ensures var o := RenameSpec(AsWritten, rpath, makedirs, old(repo), source, dest, force);
        r == o.result && repo == old(repo).(fs := o.fs) && ui.written == old(ui.written) &&
        ui.errors == old(ui.errors) + (if o.aborted.Some? then [o.aborted.value] else [])
      ensures ctx == old(ctx)
    {
      var plan :- RenamePrepare(AsWritten, source, dest);
      if plan.NoSource? {
        return Ok(([], []));
      }
      RenameSpecCopy(AsWritten, rpath, makedirs, old(repo), source, dest, force, plan.pats, plan.fdest, repo.fs);
      r := CopyKeepingAbort(plan.pats + [plan.fdest], force);
    }

    /** rename as intended: the paths pass the contained guard, and the
        buffer is popped whatever hg_copy does, so the warnings of an aborted
        copy are discarded with it and the stack is left as found. */
    method Rename(source: PyValue, dest: PyValue, force: bool) returns (r: Result<(seq<string>, seq<string>)>)
      modifies this, ui
      ensures var o := RenameSpec(Contained, rpath, makedirs, old(repo), source, dest, force);
        r == o.result && repo == old(repo).(fs := o.fs) && ui.written == old(ui.written) && ui.errors == old(ui.errors)
      ensures ctx == old(ctx)
    {
      var plan :- RenamePrepare(Contained, source, dest);
      if plan.NoSource? {
        return Ok(([], []));
      }
      RenameSpecCopy(Contained, rpath, makedirs, old(repo), source, dest, force, plan.pats, plan.fdest, repo.fs);
      r := CopyPopped(plan.pats + [plan.fdest], force);
    }
  }
}
