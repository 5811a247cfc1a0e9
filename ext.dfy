/** ext.py: the working-copy status listing of hgweb_ext, hex_, and hg_copy,
    the copy/rename command that reports what it moved. */
module Ext {
  import opened Text
  import opened Failures
  import opened Posix
  import opened Listing
  import opened Pmr2Ui

  // ---------------------------------------------------------------------------
  // hex_

  /** hex_: no node gives the empty string, a node its lower-case hex text */
  function Hex(data: Option<seq<byte>>): (r: string)
    ensures data.None? ==> r == ""
    ensures data.Some? ==> |r| == 2 * |data.value|
    ensures forall i :: 0 <= i < |r| ==> IsHexDigit(r[i])
  {
    if data.None? then "" else Hexlify(data.value)
  }

  /** The hex text of a node decodes back to the node. */
  lemma HexRoundTrip(data: seq<byte>)
    ensures Unhexlify(Hex(Some(data))) == data
  {
    UnhexlifyHexlify(data);
  }

  // ---------------------------------------------------------------------------
  // status: which status list each file is in

  /** The names of repo.status's lists, in the order it returns them */
  const ChangeTypes: seq<string> := ["modified", "added", "removed", "deleted", "unknown", "ignored", "clean"]

  /** zip(changetypes, st) pairs only as many lists as both sides have. */
  function Paired(st: seq<seq<string>>): (n: nat)
    ensures n <= |st| && n <= |ChangeTypes|
  {
    if |st| < |ChangeTypes| then |st| else |ChangeTypes|
  }

  /** filestatlist: every file named in one of the paired lists is mapped to
      the name of a list that holds it. When the lists are disjoint, as
      repo.status makes them, that name is unique (StatusNameUnique). */
  method StatusNames(st: seq<seq<string>>) returns (names: map<string, string>)
    ensures forall f :: f in names <==> exists i :: 0 <= i < Paired(st) && f in st[i]
    ensures forall f :: f in names ==> exists i :: 0 <= i < Paired(st) && f in st[i] && names[f] == ChangeTypes[i]
  {
    names := map[];
    var n := Paired(st);
    var i := 0;
    while i < n
      invariant 0 <= i <= n
      invariant forall f :: f in names <==> exists k :: 0 <= k < i && f in st[k]
      invariant forall f :: f in names ==> exists k :: 0 <= k < i && f in st[k] && names[f] == ChangeTypes[k]
    {
      var v := st[i];
      var j := 0;
      while j < |v|
        invariant 0 <= j <= |v|
        invariant forall f :: f in names <==> (exists k :: 0 <= k < i && f in st[k]) || f in v[..j]
        invariant forall f :: f in names ==>
          (exists k :: 0 <= k < i && f in st[k] && names[f] == ChangeTypes[k]) ||
          (f in v[..j] && names[f] == ChangeTypes[i])
      {
        assert v[..j + 1] == v[..j] + [v[j]];
        names := names[v[j] := ChangeTypes[i]];
        j := j + 1;
      }
      assert v[..j] == v;
      i := i + 1;
    }
  }

  /** Lists that share no file name each file by the one list holding it. */
  lemma StatusNameUnique(st: seq<seq<string>>, names: map<string, string>, f: string, i: nat)
    requires forall a, b :: 0 <= a < b < |st| ==> forall g :: g in st[a] ==> g !in st[b]
    requires forall g :: g in names ==> exists k :: 0 <= k < Paired(st) && g in st[k] && names[g] == ChangeTypes[k]
    requires i < Paired(st) && f in st[i] && f in names
    ensures names[f] == ChangeTypes[i]
  {
    var k :| 0 <= k < Paired(st) && f in st[k] && names[f] == ChangeTypes[k];
  }

  // ---------------------------------------------------------------------------
  // status: the partition of the manifest under a prefix

  type Node = seq<byte>

  /** One value of the files dict: the full manifest path and, for a file,
      its node; directory keys carry no node. */
  datatype Slot = Slot(full: string, node: Option<Node>)

  /** `if not fnode`: a missing or empty node counts as no node. */
  predicate Truthy(node: Option<Node>) {
    node.Some? && node.value != []
  }

  /** A directory key: a first component without a slash, then one slash */
  predicate IsDirKey(k: string) {
    |k| > 0 && k[|k| - 1] == '/' && '/' !in k[..|k| - 1]
  }

  /** What the loop over the manifest leaves in the files dict, for prefix p:
      a key without a slash for each file directly under p, carrying its path
      and node, and a key "<first component>/" for each sub-directory, carrying
      no node and some manifest path inside it. */
  ghost predicate Partitioned(mf: map<string, Node>, p: string, files: map<string, Slot>) {
    (forall n :: '/' !in n ==> (n in files <==> n in FileNamesOf(mf.Keys, p))) &&
    (forall n :: n in files && '/' !in n ==> p + n in mf && files[n] == Slot(p + n, Some(mf[p + n]))) &&
    (forall d :: d in DirNamesOf(mf.Keys, p) ==> d + "/" in files) &&
    (forall k :: k in files && '/' in k ==>
       IsDirKey(k) && k[..|k| - 1] in DirNamesOf(mf.Keys, p) && files[k].node.None? &&
       files[k].full in mf && Under(files[k].full, p + k))
  }

  /** The files dict so far holds only correct file slots ... */
  ghost predicate FileSlotsOk(mf: map<string, Node>, p: string, files: map<string, Slot>) {
    forall n :: n in files && '/' !in n ==> p + n in mf && files[n] == Slot(p + n, Some(mf[p + n]))
  }

  /** ... and only correct directory slots. */
  ghost predicate DirSlotsOk(mf: map<string, Node>, p: string, files: map<string, Slot>) {
    forall k :: k in files && '/' in k ==>
      IsDirKey(k) && k[..|k| - 1] in DirNamesOf(mf.Keys, p) && files[k].node.None? &&
      files[k].full in mf && Under(files[k].full, p + k)
  }

  lemma AddFileSlot(mf: map<string, Node>, p: string, files: map<string, Slot>, n: string)
    requires FileSlotsOk(mf, p, files) && DirSlotsOk(mf, p, files)
    requires '/' !in n && p + n in mf
    ensures FileSlotsOk(mf, p, files[n := Slot(p + n, Some(mf[p + n]))])
    ensures DirSlotsOk(mf, p, files[n := Slot(p + n, Some(mf[p + n]))])
  {
  }

  lemma AddDirSlot(mf: map<string, Node>, p: string, files: map<string, Slot>, f: string, k: string)
    requires FileSlotsOk(mf, p, files) && DirSlotsOk(mf, p, files)
    requires f in mf && Under(f, p) && '/' in f[|p|..]
    requires k == FirstComponent(f[|p|..]) + "/"
    ensures FileSlotsOk(mf, p, files[k := Slot(f, None)])
    ensures DirSlotsOk(mf, p, files[k := Slot(f, None)])
  {
    var remain := f[|p|..];
    var d := FirstComponent(remain);
    DirKeyOf(remain);
    assert d in DirNamesOf(mf.Keys, p);
    assert k[..|k| - 1] == d;
    assert f == p + remain;
    assert Under(f, p + k) by {
      assert f[..|p + k|] == p + remain[..|k|];
    }
    assert '/' in k by { assert k[|k| - 1] == '/'; }
  }

  /** The partition loop of status: the prefix gets its trailing slash, then
      each manifest path under it files itself under its key. */
  method Partition(mf: map<string, Node>, path: string) returns (p: string, files: map<string, Slot>)
    ensures p == NormPrefix(path)
    ensures Partitioned(mf, p, files)
  {
    p := path;
    if p != "" && p[|p| - 1] != '/' {
      p := p + "/";
    }
    files := map[];
    var todo := mf.Keys;
    ghost var done: set<string> := {};
    while todo != {}
      invariant done == mf.Keys - todo && todo <= mf.Keys
      invariant FileSlotsOk(mf, p, files) && DirSlotsOk(mf, p, files)
      invariant forall f :: f in done && Under(f, p) && '/' !in f[|p|..] ==> f[|p|..] in files
      invariant forall f :: f in done && Under(f, p) && '/' in f[|p|..] ==> FirstComponent(f[|p|..]) + "/" in files
      decreases |todo|
    {
      var f :| f in todo;
      files := FileOne(mf, p, files, f);
      todo := todo - {f};
      done := done + {f};
    }
    FileNamesOfChar(mf.Keys, p);
    forall d | d in DirNamesOf(mf.Keys, p) ensures d + "/" in files {
      var f :| f in mf.Keys && Under(f, p) && '/' in f[|p|..] && FirstComponent(f[|p|..]) == d;
    }
  }

  /** The loop body for one manifest path f: skipped unless it lies under p;
      a remainder with a slash files a directory key, any other a file key. */
  method FileOne(mf: map<string, Node>, p: string, files: map<string, Slot>, f: string)
      returns (files': map<string, Slot>)
    requires f in mf
    requires FileSlotsOk(mf, p, files) && DirSlotsOk(mf, p, files)
    ensures FileSlotsOk(mf, p, files') && DirSlotsOk(mf, p, files')
    ensures files.Keys <= files'.Keys
    ensures Under(f, p) && '/' !in f[|p|..] ==> f[|p|..] in files'
    ensures Under(f, p) && '/' in f[|p|..] ==> FirstComponent(f[|p|..]) + "/" in files'
  {
    files' := files;
    SliceTestIsPrefix(f, p);
    if Under(f, p) {
      var remain := f[|p|..];
      assert f == p + remain;
      if '/' in remain {
        var short := remain[..IndexOf(remain, '/') + 1];
        DirKeyOf(remain);
        assert short == FirstComponent(remain) + "/";
        AddDirSlot(mf, p, files, f, short);
        files' := files[short := Slot(f, None)];
      } else {
        var short := Posix.Basename(remain);
        BasenameNoSlash(remain);
        assert short == remain;
        AddFileSlot(mf, p, files, remain);
        files' := files[short := Slot(f, Some(mf[f]))];
      }
    }
  }

  /** A slash-free name is its own basename. */
  lemma BasenameNoSlash(s: string)
    requires '/' !in s
    ensures Posix.Basename(s) == s
  {
    var i := Posix.TailStart(s);
  }

  /** remain[:remain.index("/") + 1] is the first component and its slash,
      and the remainder lies under it. */
  lemma DirKeyOf(remain: string)
    requires '/' in remain
    ensures remain[..IndexOf(remain, '/') + 1] == FirstComponent(remain) + "/"
    ensures IsDirKey(FirstComponent(remain) + "/")
    ensures (FirstComponent(remain) + "/")[..|FirstComponent(remain)|] == FirstComponent(remain)
    ensures StartsWith(remain, FirstComponent(remain) + "/")
  {
    SplitFirst(remain, '/');
    FirstComponentSlash(remain);
    var i := IndexOf(remain, '/');
    assert remain[..i + 1] == remain[..i] + "/";
  }

  /** The keys that the file listing shows (a node) and those the directory
      listing shows (none) */
  ghost function FileKeys(files: map<string, Slot>): set<string> {
    set k | k in files && Truthy(files[k].node)
  }

  ghost function DirKeys(files: map<string, Slot>): set<string> {
    set k | k in files && !Truthy(files[k].node)
  }

  /** With every manifest node non-empty, the file listing's keys are exactly
      the names of the files directly under the prefix, and the directory
      listing's keys are exactly the sub-directory names, each with a slash:
      the same split listdir makes. */
  lemma PartitionFileKeys(mf: map<string, Node>, p: string, files: map<string, Slot>)
    requires Partitioned(mf, p, files)
    requires forall f :: f in mf ==> mf[f] != []
    ensures forall n :: n in FileKeys(files) <==> n in FileNamesOf(mf.Keys, p)
  {
    FileNamesOfChar(mf.Keys, p);
  }

  lemma PartitionDirKeys(mf: map<string, Node>, p: string, files: map<string, Slot>)
    requires Partitioned(mf, p, files)
    requires forall f :: f in mf ==> mf[f] != []
    ensures forall k :: k in DirKeys(files) <==> IsDirKey(k) && k[..|k| - 1] in DirNamesOf(mf.Keys, p)
  {
    forall k | IsDirKey(k) && k[..|k| - 1] in DirNamesOf(mf.Keys, p) ensures k in DirKeys(files) {
      var d := k[..|k| - 1];
      assert k == d + "/";
      assert '/' in k by { assert k[|k| - 1] == '/'; }
    }
  }

  // ---------------------------------------------------------------------------
  // status: the listings over the sorted keys

  /** One row of filelist (the engine-rendered date, size and flags left out) */
  datatype FileRow = FileRow(file: string, status: string, basename: string)

  /** One row of dirlist */
  datatype DirRow = DirRow(path: string, basename: string)

  /** One row of fulllist: a directory row extended with its file name and
      permissions, or a file row */
  datatype FullRow =
    | FullDir(file: string, path: string, basename: string, permissions: string)
    | FullFile(row: FileRow)

  /** f[:-1] */
  function DropLast(k: string): string {
    if |k| > 0 then k[..|k| - 1] else ""
  }

  /** The keys, in the given order, whose slot has a node (truthy) or has none */
  function KeysWhere(keys: seq<string>, files: map<string, Slot>, truthy: bool): (r: seq<string>)
    requires forall i :: 0 <= i < |keys| ==> keys[i] in files
    ensures forall x :: x in r <==> x in keys && Truthy(files[x].node) == truthy
    ensures forall i :: 0 <= i < |r| ==> r[i] in files && Truthy(files[r[i]].node) == truthy
    decreases |keys|
  {
    if keys == [] then []
    else
      var rest := KeysWhere(keys[1..], files, truthy);
      assert forall x :: x in keys <==> x == keys[0] || x in keys[1..];
      if Truthy(files[keys[0]].node) == truthy then [keys[0]] + rest else rest
  }

  lemma {:induction false} KeysWhereSorted(keys: seq<string>, files: map<string, Slot>, truthy: bool)
    requires forall i :: 0 <= i < |keys| ==> keys[i] in files
    requires StrictlySorted(keys)
    ensures StrictlySorted(KeysWhere(keys, files, truthy))
    decreases |keys|
  {
    if keys != [] {
      KeysWhereSorted(keys[1..], files, truthy);
      var rest := KeysWhere(keys[1..], files, truthy);
      forall j | 0 <= j < |rest| ensures LexLess(keys[0], rest[j]) {
        assert rest[j] in keys[1..];
      }
    }
  }

  /** The rows of filelist for the keys that have a node, in order: each with
      its full path and status; a file with no status is filestatlist's KeyError. */
  function FileRowsFor(ks: seq<string>, files: map<string, Slot>, names: map<string, string>): (r: Result<seq<FileRow>>)
    requires forall i :: 0 <= i < |ks| ==> ks[i] in files
    ensures r.Err? <==> exists i :: 0 <= i < |ks| && files[ks[i]].full !in names
    ensures r.Ok? ==> (|r.value| == |ks| &&
      forall i :: 0 <= i < |ks| ==>
        files[ks[i]].full in names && r.value[i] == FileRow(files[ks[i]].full, names[files[ks[i]].full], ks[i]))
    decreases |ks|
  {
    if ks == [] then Ok([])
    else
      var s := files[ks[0]];
      if s.full !in names then Err(KeyError(s.full))
      else
        var rest := FileRowsFor(ks[1..], files, names);
        if rest.Err? then
          assert exists i :: 0 <= i < |ks| && files[ks[i]].full !in names by {
            var j :| 0 <= j < |ks| - 1 && files[ks[1..][j]].full !in names;
            assert ks[1..][j] == ks[j + 1];
          }
          rest
        else Ok([FileRow(s.full, names[s.full], ks[0])] + rest.value)
  }

  /** filelist over keys in the given order: the keys with a node, as rows */
  function FileRowsOf(keys: seq<string>, files: map<string, Slot>, names: map<string, string>): Result<seq<FileRow>>
    requires forall i :: 0 <= i < |keys| ==> keys[i] in files
  {
    FileRowsFor(KeysWhere(keys, files, true), files, names)
  }

  /** dirlist over keys in the given order: keys without a node, as
      "/" + prefix + key with the key minus its slash as basename */
  function DirRowsOf(keys: seq<string>, files: map<string, Slot>, abspath: string): (r: seq<DirRow>)
    requires forall i :: 0 <= i < |keys| ==> keys[i] in files
  {
    var ks := KeysWhere(keys, files, false);
    seq(|ks|, i requires 0 <= i < |ks| => DirRow(abspath + ks[i], DropLast(ks[i])))
  }

  function FullDirRows(dirs: seq<DirRow>): (r: seq<FullRow>)
    ensures |r| == |dirs|
    ensures forall i :: 0 <= i < |dirs| ==>
      r[i] == FullDir(if |dirs[i].path| > 0 then dirs[i].path[1..] else "", dirs[i].path, dirs[i].basename, "drwxr-xr-x")
  {
    seq(|dirs|, i requires 0 <= i < |dirs| =>
      FullDir(if |dirs[i].path| > 0 then dirs[i].path[1..] else "", dirs[i].path, dirs[i].basename, "drwxr-xr-x"))
  }

  function FullFileRows(rows: seq<FileRow>): (r: seq<FullRow>)
    ensures |r| == |rows|
    ensures forall i :: 0 <= i < |rows| ==> r[i] == FullFile(rows[i])
  {
    seq(|rows|, i requires 0 <= i < |rows| => FullFile(rows[i]))
  }

  /** fulllist: every directory row, then every file row */
  function FullRowsOf(dirs: seq<DirRow>, files: Result<seq<FileRow>>): Result<seq<FullRow>> {
    if files.Err? then Err(files.error) else Ok(FullDirRows(dirs) + FullFileRows(files.value))
  }

  /** What status hands its template */
  datatype StatusView = StatusView(node: string, path: string, files: Result<seq<FileRow>>,
                                   dirs: seq<DirRow>, full: Result<seq<FullRow>>)

  ghost function StatusSpec(st: seq<seq<string>>, names: map<string, string>, mf: map<string, Node>,
                            node: Option<Node>, path: string, files: map<string, Slot>): StatusView
  {
    var p := NormPrefix(path);
    var keys := SortedSet(files.Keys);
    var fl := FileRowsOf(keys, files, names);
    var dl := DirRowsOf(keys, files, "/" + p);
    StatusView(Hex(node), "/" + p, fl, dl, FullRowsOf(dl, fl))
  }

  /** hgweb_ext.status (ext.py): the status names, the partition, and the three
      listings over the sorted keys of the partition. */
  method Status(st: seq<seq<string>>, mf: map<string, Node>, node: Option<Node>, path: string)
      returns (v: StatusView, names: map<string, string>, files: map<string, Slot>)
    ensures forall f :: f in names <==> exists i :: 0 <= i < Paired(st) && f in st[i]
    ensures forall f :: f in names ==> exists i :: 0 <= i < Paired(st) && f in st[i] && names[f] == ChangeTypes[i]
    ensures Partitioned(mf, NormPrefix(path), files)
    ensures v == StatusSpec(st, names, mf, node, path, files)
  {
    names := StatusNames(st);
    var p, fs := Partition(mf, path);
    files := fs;
    var keys := SortSet(fs.Keys);
    var abspath := "/" + p;
    var fl := FileRowsOf(keys, fs, names);
    var dl := DirRowsOf(keys, fs, abspath);
    v := StatusView(Hex(node), abspath, fl, dl, FullRowsOf(dl, fl));
  }

  /** Selecting by node from the sorted keys gives the sorted selected keys. */
  lemma SortedKeysWhere(files: map<string, Slot>, truthy: bool)
    ensures KeysWhere(SortedSet(files.Keys), files, truthy) ==
            SortedSet(if truthy then FileKeys(files) else DirKeys(files))
  {
    var all := SortedSet(files.Keys);
    KeysWhereSorted(all, files, truthy);
    SortedUnique(KeysWhere(all, files, truthy), SortedSet(if truthy then FileKeys(files) else DirKeys(files)));
  }

  /** The file listing shows exactly the file keys, sorted, each with its path
      and status; it fails only when a listed file has no status. */
  lemma FileListing(files: map<string, Slot>, names: map<string, string>)
    ensures var r := FileRowsOf(SortedSet(files.Keys), files, names);
      var ks := SortedSet(FileKeys(files));
      (r.Err? <==> exists k :: k in FileKeys(files) && files[k].full !in names) &&
      (r.Ok? ==> (|r.value| == |ks| && StrictlySorted(ks) &&
         forall i :: 0 <= i < |ks| ==>
           ks[i] in files && files[ks[i]].full in names &&
           r.value[i] == FileRow(files[ks[i]].full, names[files[ks[i]].full], ks[i])))
  {
    SortedKeysWhere(files, true);
    var ks := SortedSet(FileKeys(files));
    if exists k :: k in FileKeys(files) && files[k].full !in names {
      var k :| k in FileKeys(files) && files[k].full !in names;
      assert k in ks;
    }
  }

  /** The directory listing shows exactly the directory keys, sorted. */
  lemma DirListing(files: map<string, Slot>, abspath: string)
    ensures var r := DirRowsOf(SortedSet(files.Keys), files, abspath);
      var ks := SortedSet(DirKeys(files));
      |r| == |ks| && StrictlySorted(ks) &&
      forall i :: 0 <= i < |ks| ==> r[i] == DirRow(abspath + ks[i], DropLast(ks[i]))
  {
    SortedKeysWhere(files, false);
  }

  /** In the full listing every directory comes before every file; directory
      rows drop the leading slash of their path and read drwxr-xr-x. */
  lemma FullListing(dirs: seq<DirRow>, files: seq<FileRow>)
    requires forall i :: 0 <= i < |dirs| ==> StartsWith(dirs[i].path, "/")
    ensures var r := FullRowsOf(dirs, Ok(files));
      r.Ok? && |r.value| == |dirs| + |files| &&
      (forall i :: 0 <= i < |dirs| ==>
         r.value[i].FullDir? && "/" + r.value[i].file == dirs[i].path && r.value[i].permissions == "drwxr-xr-x") &&
      (forall i :: |dirs| <= i < |r.value| ==> r.value[i] == FullFile(files[i - |dirs|]))
  {
    var r := FullRowsOf(dirs, Ok(files)).value;
    forall i | 0 <= i < |dirs| ensures "/" + r[i].file == dirs[i].path {
      assert dirs[i].path == dirs[i].path[..1] + dirs[i].path[1..];
    }
  }

  // ---------------------------------------------------------------------------
  // hg_copy

  /** One hit of cmdutil.walk: the repository path, the path as the user named
      it, and whether the pattern named that file exactly */
  datatype Source = Source(abs: string, rel: string, exact: bool)

  /** What util.copyfile did: copied, the source was gone (ENOENT), or another
      IOError with its message */
  datatype CopyOutcome = Copied | Missing | IOFailure(strerror: string)

  /** The file system as os.path sees it */
  datatype FileSystem = FileSystem(present: string -> bool, isdir: string -> bool, islink: string -> bool)

  /** The repository and the file system, as hg_copy consults them */
  datatype Repo = Repo(
    walk: string -> seq<Source>,        // cmdutil.walk over one pattern
    state: string -> char,              // repo.dirstate[abs]
    copied: string -> string,           // repo.dirstate.copied(abs), "" for none
    isPattern: string -> bool,          // util.patkind(pat, None)[0] is set
    canon: string -> string,            // util.canonpath(repo.root, cwd, .)
    pathto: string -> string,           // repo.pathto(., cwd)
    wjoin: string -> string,            // repo.wjoin: the path in the working directory
    fs: FileSystem,
    copy: (string, string) -> CopyOutcome)

  /** os.path.exists(repo.wjoin(abstarget)): the target is already on disk */
  predicate Present(repo: Repo, abstarget: string) {
    repo.fs.present(repo.wjoin(abstarget))
  }

  /** dirstate states '?' (not managed) and 'r' (marked for remove) are not copied */
  predicate Skipped(repo: Repo, abs: string) {
    repo.state(abs) == '?' || repo.state(abs) == 'r'
  }

  /** What walkpat collects: the sources to copy, the warnings it writes and
      the error entries it records */
  datatype WalkResult = WalkResult(srcs: seq<Source>, warns: seq<string>, errs: seq<(string, string)>)

  /** Why walkpat refuses a source in dirstate state '?' or 'r' */
  function SkipReason(state: char): string {
    if state == '?' then "not copying - file is not managed"
    else "not copying - file has been marked for remove"
  }

  /** walkpat on one hit: a source it may copy is kept; a skipped one named
      exactly is warned about and recorded as an error entry */
  function WalkHit(repo: Repo, w: WalkResult, h: Source): (r: WalkResult)
    ensures r.srcs == if Skipped(repo, h.abs) then w.srcs else w.srcs + [h]
    ensures r.errs == if h.exact && Skipped(repo, h.abs) then w.errs + [(h.abs, SkipReason(repo.state(h.abs)))]
                      else w.errs
    ensures |r.warns| - |w.warns| == |r.errs| - |w.errs|
  {
    if !Skipped(repo, h.abs) then WalkResult(w.srcs + [h], w.warns, w.errs)
    else if !h.exact then w
    else
      var reason := SkipReason(repo.state(h.abs));
      WalkResult(w.srcs, w.warns + [h.rel + ": " + reason + "\n"], w.errs + [(h.abs, reason)])
  }

  /** walkpat over the hits seen so far */
  function WalkHits(repo: Repo, hits: seq<Source>): (w: WalkResult)
    ensures |w.warns| == |w.errs|
    ensures forall s :: s in w.srcs <==> s in hits && !Skipped(repo, s.abs)
    decreases |hits|
  {
    if hits == [] then WalkResult([], [], [])
    else WalkHit(repo, WalkHits(repo, hits[..|hits| - 1]), hits[|hits| - 1])
  }

  /** The hits walkpat refuses by name: named exactly, in state '?' or 'r' */
  function Refused(repo: Repo, hits: seq<Source>): (r: seq<Source>)
    ensures forall h :: h in r <==> h in hits && h.exact && Skipped(repo, h.abs)
    decreases |hits|
  {
    if hits == [] then []
    else
      var last := hits[|hits| - 1];
      Refused(repo, hits[..|hits| - 1]) + (if last.exact && Skipped(repo, last.abs) then [last] else [])
  }

  /** walkpat records one error entry per refused hit, in walk order, with the
      reason its dirstate state gives. */
  lemma {:induction false} WalkErrors(repo: Repo, hits: seq<Source>)
    ensures var w, r := WalkHits(repo, hits), Refused(repo, hits);
      |w.errs| == |r| &&
      forall i :: 0 <= i < |r| ==> w.errs[i] == (r[i].abs, SkipReason(repo.state(r[i].abs)))
    decreases |hits|
  {
    if hits != [] {
      WalkErrors(repo, hits[..|hits| - 1]);
    }
  }

  /** The copy list and what the walks wrote, over the source patterns seen so
      far: a pattern that yields no source is left out. */
  datatype WalkAllResult = WalkAllResult(copylist: seq<(string, seq<Source>)>, warns: seq<string>, errs: seq<(string, string)>)

  function WalkPats(repo: Repo, pats: seq<string>): (w: WalkAllResult)
    ensures forall i :: 0 <= i < |w.copylist| ==>
      w.copylist[i].0 in pats && w.copylist[i].1 == WalkHits(repo, repo.walk(w.copylist[i].0)).srcs != []
    ensures w.copylist == [] <==> forall p :: p in pats ==> WalkHits(repo, repo.walk(p)).srcs == []
    decreases |pats|
  {
    if pats == [] then WalkAllResult([], [], [])
    else
      var w := WalkPats(repo, pats[..|pats| - 1]);
      var pat := pats[|pats| - 1];
      var s := WalkHits(repo, repo.walk(pat));
      var copylist := if s.srcs == [] then w.copylist else w.copylist + [(pat, s.srcs)];
      WalkAllResult(copylist, w.warns + s.warns, w.errs + s.errs)
  }

  /** walkpat over the first n hits, counted by position */
  ghost function WalkPrefix(repo: Repo, hits: seq<Source>, n: nat): WalkResult
    requires n <= |hits|
  {
    if n == 0 then WalkResult([], [], []) else WalkHit(repo, WalkPrefix(repo, hits, n - 1), hits[n - 1])
  }

  /** Counting by position and walking the prefix agree. */
  lemma {:induction false} WalkPrefixIsWalkHits(repo: Repo, hits: seq<Source>, n: nat)
    requires n <= |hits|
    ensures WalkPrefix(repo, hits, n) == WalkHits(repo, hits[..n])
  {
    if n > 0 {
      var init := hits[..n - 1];
      assert hits[..n][..n - 1] == init;
      WalkPrefixIsWalkHits(repo, hits, n - 1);
      assert WalkHits(repo, hits[..n]) == WalkHit(repo, WalkHits(repo, init), hits[n - 1]);
    }
  }

  /** The source patterns whose walk keeps a source, in the order given */
  function KeptPats(repo: Repo, pats: seq<string>): (r: seq<string>)
    ensures forall p :: p in r <==> p in pats && WalkHits(repo, repo.walk(p)).srcs != []
    decreases |pats|
  {
    if pats == [] then []
    else
      var pat := pats[|pats| - 1];
      KeptPats(repo, pats[..|pats| - 1]) + (if WalkHits(repo, repo.walk(pat)).srcs != [] then [pat] else [])
  }

  /** The copy list has one entry per pattern that kept sources, in pattern
      order and as often as the pattern is given, each with its walk's
      sources. */
  lemma {:induction false} WalkPatsInOrder(repo: Repo, pats: seq<string>)
    ensures var w, k := WalkPats(repo, pats), KeptPats(repo, pats);
      |w.copylist| == |k| &&
      forall i :: 0 <= i < |k| ==> w.copylist[i] == (k[i], WalkHits(repo, repo.walk(k[i])).srcs)
    decreases |pats|
  {
    if pats != [] {
      var init, pat := pats[..|pats| - 1], pats[|pats| - 1];
      WalkPatsInOrder(repo, init);
      var w0, k0 := WalkPats(repo, init), KeptPats(repo, init);
      var srcs := WalkHits(repo, repo.walk(pat)).srcs;
      var w, k := WalkPats(repo, pats), KeptPats(repo, pats);
      if srcs == [] {
        assert w.copylist == w0.copylist && k == k0;
      } else {
        assert w.copylist == w0.copylist + [(pat, srcs)] && k == k0 + [pat];
      }
    }
  }

  /** The argument rules: the last pattern is the destination; an existing
      directory is needed for several sources or a pattern source, and a
      destination ending in a separator must be one. */
  function CopyArgs(repo: Repo, pats: seq<string>): (r: Result<(seq<string>, string, bool)>)
    ensures pats == [] ==> r == Err(Abort("no source or destination specified"))
    ensures |pats| == 1 ==> r == Err(Abort("no destination specified"))
    ensures r.Ok? <==> (|pats| >= 2 &&
      ((repo.fs.isdir(pats[|pats| - 1]) && !repo.fs.islink(pats[|pats| - 1])) ||
       (|pats| == 2 && !repo.isPattern(pats[0]) && !EndsWith(pats[1], '/'))))
    ensures r.Ok? ==> r.value == (pats[..|pats| - 1], pats[|pats| - 1],
                                  repo.fs.isdir(pats[|pats| - 1]) && !repo.fs.islink(pats[|pats| - 1]))
  {
    if pats == [] then Err(Abort("no source or destination specified"))
    else if |pats| == 1 then Err(Abort("no destination specified"))
    else
      var dest := pats[|pats| - 1];
      var srcs := pats[..|pats| - 1];
      var destdirexists := repo.fs.isdir(dest) && !repo.fs.islink(dest);
      if !destdirexists && (|srcs| > 1 || repo.isPattern(srcs[0])) then
        Err(Abort("with multiple sources, destination must be an existing directory"))
      else if !destdirexists && EndsWith(dest, '/') then
        Err(Abort("destination " + dest + " is not a directory"))
      else Ok((srcs, dest, destdirexists))
  }

  /** targetpathfn: where a source found through pat goes */
  function TargetPath(repo: Repo, pat: string, dest: string, destdirexists: bool, p: string): string {
    if repo.fs.isdir(pat) then
      var abspfx := repo.canon(pat);
      var head := if destdirexists then |Posix.Dirname(abspfx)| else |abspfx|;
      var striplen := if head > 0 then head + 1 else 0;
      Posix.PathJoin(dest, if striplen <= |p| then p[striplen..] else "")
    else if destdirexists then Posix.PathJoin(dest, Posix.Basename(p))
    else dest
  }

  /** A single file lands on the destination itself, or, when the destination
      is an existing directory, inside it under its own base name. */
  lemma TargetPathOfFile(repo: Repo, pat: string, dest: string, destdirexists: bool, p: string)
    requires !repo.fs.isdir(pat)
    ensures !destdirexists ==> TargetPath(repo, pat, dest, destdirexists, p) == dest
    ensures destdirexists ==>
      var t := TargetPath(repo, pat, dest, destdirexists, p);
      StartsWith(t, dest) && Posix.Basename(t) == Posix.Basename(p)
  {
    Posix.BasenameJoin(dest, Posix.Basename(p));
  }

  /** What copyfile did for one source: the claimed targets afterwards, the
      warnings written, the error entries recorded, and whether it reported a
      failure (its only true return) */
  datatype CopyStep = CopyStep(targets: map<string, string>, warns: seq<string>, errs: seq<(string, string)>, failed: bool)

  /** copyfile with after and dry_run off, as rename calls it */
  function CopyFile(repo: Repo, force: bool, quiet: bool, targets: map<string, string>,
                    src: Source, otarget: string): CopyStep
  {
    var abstarget := repo.canon(otarget);
    var reltarget := repo.pathto(abstarget);
    if abstarget in targets then
      CopyStep(targets, [reltarget + ": not overwriting - " + repo.pathto(src.abs) + " collides with " +
                         repo.pathto(targets[abstarget]) + "\n"], [(src.abs, "")], false)
    else if Present(repo, abstarget) && !force then
      CopyStep(targets, [reltarget + ": not overwriting - file exists\n"], [(src.abs, "destination exists")], false)
    else
      var outcome := repo.copy(src.abs, abstarget);
      if outcome.IOFailure? then
        CopyStep(targets, [src.rel + ": cannot copy - " + outcome.strerror + "\n"],
                 [(src.abs, "cannot copy - " + outcome.strerror)], true)
      else Claim(repo, quiet, targets, src, abstarget, outcome)
  }

  /** The rest of copyfile once the copy went through or found the source
      gone: the target is claimed for src, and a source whose origin was only
      added gets a warning that no copy data is kept. */
  /** The warning for a source deleted from the working copy */
  function MissingWarns(src: Source, outcome: CopyOutcome): seq<string> {
    if outcome.Missing? then [src.rel + ": deleted in working copy\n"] else []
  }

  /** The warning that a copy of a source added but not committed records no
      copy data */
  function UncommittedWarns(repo: Repo, quiet: bool, src: Source, abstarget: string): seq<string> {
    var origsrc := if repo.copied(src.abs) != "" then repo.copied(src.abs) else src.abs;
    if abstarget != origsrc && repo.state(origsrc) == 'a' && !quiet then
      [repo.pathto(origsrc) + " has not been committed yet, so no copy data will be stored for " +
       repo.pathto(abstarget) + ".\n"]
    else []
  }

  function Claim(repo: Repo, quiet: bool, targets: map<string, string>, src: Source, abstarget: string,
                 outcome: CopyOutcome): (c: CopyStep)
    requires !outcome.IOFailure?
    ensures c.targets == targets[abstarget := src.abs] && !c.failed
    ensures c.errs == if outcome.Missing? then [(src.abs, "deleted in working copy")] else []
  {
    var w1 := MissingWarns(src, outcome);
    var e1 := if outcome.Missing? then [(src.abs, "deleted in working copy")] else [];
    var w2 := UncommittedWarns(repo, quiet, src, abstarget);
    CopyStep(targets[abstarget := src.abs], w1 + w2, e1, false)
  }

  /** The rules of copyfile: a target already claimed is refused with an empty
      error entry; an existing target without force is refused with
      "destination exists"; only an I/O error other than a missing source
      counts as a failure; and no claimed target is ever reassigned. */
  lemma CopyFileRules(repo: Repo, force: bool, quiet: bool, targets: map<string, string>, src: Source, otarget: string)
    ensures var c, t := CopyFile(repo, force, quiet, targets, src, otarget), repo.canon(otarget);
      (c.failed <==> t !in targets && !(Present(repo, t) && !force) && repo.copy(src.abs, t).IOFailure?) &&
      (t in targets ==> c.targets == targets && c.errs == [(src.abs, "")]) &&
      (t !in targets && Present(repo, t) && !force ==>
         c.targets == targets && c.errs == [(src.abs, "destination exists")]) &&
      (forall u :: u in targets ==> u in c.targets && c.targets[u] == targets[u]) &&
      (forall u :: u in c.targets && u !in targets ==> u == t && c.targets[u] == src.abs)
  {
  }

  /** copyfile as written: its IOError handler compares with errno.ENOENT,
      but ext.py never imports errno, so any I/O error of the copy raises
      NameError out of hg_copy. It agrees with CopyFile everywhere else. */
  function CopyFileAsWritten(repo: Repo, force: bool, quiet: bool, targets: map<string, string>,
                             src: Source, otarget: string): (r: Result<CopyStep>)
    ensures var t := repo.canon(otarget);
      r.Err? <==> t !in targets && !(Present(repo, t) && !force) && !repo.copy(src.abs, t).Copied?
    ensures r.Err? ==> r.error.NameError?
    ensures r.Ok? ==> r.value == CopyFile(repo, force, quiet, targets, src, otarget)
  {
    var abstarget := repo.canon(otarget);
    if abstarget !in targets && !(Present(repo, abstarget) && !force) && !repo.copy(src.abs, abstarget).Copied? then
      Err(NameError("global name 'errno' is not defined"))
    else Ok(CopyFile(repo, force, quiet, targets, src, otarget))
  }

  /** A source that vanished from the working copy: as written copyfile
      raises NameError, where the intended copyfile records "deleted in
      working copy", claims the target and lets the loop go on. */
  lemma CopyFileRaisesNameError(repo: Repo, force: bool, quiet: bool, targets: map<string, string>,
                                src: Source, otarget: string)
    requires repo.canon(otarget) !in targets && !Present(repo, repo.canon(otarget))
    requires repo.copy(src.abs, repo.canon(otarget)) == Missing
    ensures CopyFileAsWritten(repo, force, quiet, targets, src, otarget) == Err(NameError("global name 'errno' is not defined"))
    ensures var c := CopyFile(repo, force, quiet, targets, src, otarget);
      !c.failed && c.errs == [(src.abs, "deleted in working copy")] &&
      c.targets == targets[repo.canon(otarget) := src.abs]
  {
  }

  /** The state of the copy loop: claimed targets, warnings, error entries,
      the sources reported as copied, and the count of failures */
  datatype CopyState = CopyState(targets: map<string, string>, warns: seq<string>, errs: seq<(string, string)>,
                                 success: seq<string>, failures: nat)

  /** The (source, target) pairs the copy loop visits, in order */
  function ItemsOf(repo: Repo, copylist: seq<(string, seq<Source>)>, dest: string, destdirexists: bool): seq<(Source, string)>
    decreases |copylist|
  {
    if copylist == [] then []
    else ItemsOf(repo, copylist[..|copylist| - 1], dest, destdirexists) +
         PatItems(repo, copylist[|copylist| - 1], dest, destdirexists)
  }

  function PatItems(repo: Repo, entry: (string, seq<Source>), dest: string, destdirexists: bool): (r: seq<(Source, string)>)
    ensures |r| == |entry.1|
    ensures forall i :: 0 <= i < |r| ==> r[i].0 == entry.1[i]
  {
    seq(|entry.1|, i requires 0 <= i < |entry.1| =>
      (entry.1[i], TargetPath(repo, entry.0, dest, destdirexists, entry.1[i].abs)))
  }

  /** One turn of the copy loop */
  function CopyTurn(repo: Repo, force: bool, quiet: bool, st: CopyState, item: (Source, string)): CopyState {
    var c := CopyFile(repo, force, quiet, st.targets, item.0, item.1);
    CopyState(c.targets, st.warns + c.warns, st.errs + c.errs,
              if c.failed then st.success else st.success + [item.0.abs],
              if c.failed then st.failures + 1 else st.failures)
  }

  /** The copy loop over the items seen so far */
  function CopyAll(repo: Repo, force: bool, quiet: bool, items: seq<(Source, string)>): (st: CopyState)
    ensures |st.success| + st.failures == |items|
    decreases |items|
  {
    if items == [] then CopyState(map[], [], [], [], 0)
    else CopyTurn(repo, force, quiet, CopyAll(repo, force, quiet, items[..|items| - 1]), items[|items| - 1])
  }

  /** The source paths of the items, in order */
  function SourcesOf(items: seq<(Source, string)>): (r: seq<string>)
    ensures |r| == |items| && forall i :: 0 <= i < |items| ==> r[i] == items[i].0.abs
  {
    seq(|items|, i requires 0 <= i < |items| => items[i].0.abs)
  }

  /** Every source reported as copied and every claimed target comes from an
      item: a target is claimed by the source whose own target it is. */
  ghost predicate FromItems(repo: Repo, items: seq<(Source, string)>, st: CopyState) {
    (forall s :: s in st.success ==> s in SourcesOf(items)) &&
    (forall t :: t in st.targets ==>
       exists i :: 0 <= i < |items| && repo.canon(items[i].1) == t && items[i].0.abs == st.targets[t])
  }

  lemma {:induction false} CopyAllFromItems(repo: Repo, force: bool, quiet: bool, items: seq<(Source, string)>)
    ensures FromItems(repo, items, CopyAll(repo, force, quiet, items))
    decreases |items|
  {
    if items != [] {
      var init := items[..|items| - 1];
      var last := items[|items| - 1];
      CopyAllFromItems(repo, force, quiet, init);
      var st0, st := CopyAll(repo, force, quiet, init), CopyAll(repo, force, quiet, items);
      assert FromItems(repo, init, st0);
      CopyFileRules(repo, force, quiet, st0.targets, last.0, last.1);
      assert SourcesOf(items) == SourcesOf(init) + [last.0.abs];
      forall t | t in st.targets
        ensures exists i :: 0 <= i < |items| && repo.canon(items[i].1) == t && items[i].0.abs == st.targets[t]
      {
        if t in st0.targets && st.targets[t] == st0.targets[t] {
          assert exists i :: 0 <= i < |init| && repo.canon(init[i].1) == t && init[i].0.abs == st0.targets[t];
          var i :| 0 <= i < |init| && repo.canon(init[i].1) == t && init[i].0.abs == st0.targets[t];
          assert items[i] == init[i];
        } else {
          assert repo.canon(last.1) == t && last.0.abs == st.targets[t];
        }
      }
    }
  }

  /** A claimed target stays claimed by the same source for the rest of the
      loop: copyfile never overwrites an entry of targets. */
  lemma {:induction false} ClaimsKept(repo: Repo, force: bool, quiet: bool, items: seq<(Source, string)>, n: nat)
    requires n <= |items|
    ensures var before, after := CopyAll(repo, force, quiet, items[..n]), CopyAll(repo, force, quiet, items);
      forall t :: t in before.targets ==> t in after.targets && after.targets[t] == before.targets[t]
    decreases |items|
  {
    if n < |items| {
      var init := items[..|items| - 1];
      assert init[..n] == items[..n];
      ClaimsKept(repo, force, quiet, init, n);
      var last := items[|items| - 1];
      CopyFileRules(repo, force, quiet, CopyAll(repo, force, quiet, init).targets, last.0, last.1);
    } else {
      assert items[..n] == items;
    }
  }

  /** First claim wins: once a source has claimed target t, a later source
      whose target is also t is refused with an empty error entry, is still
      reported as copied, and t keeps its first source. */
  lemma FirstClaimWins(repo: Repo, force: bool, quiet: bool, items: seq<(Source, string)>, i: nat, j: nat)
    requires i < j < |items|
    requires repo.canon(items[i].1) == repo.canon(items[j].1)
    requires repo.canon(items[i].1) in CopyAll(repo, force, quiet, items[..i + 1]).targets
    ensures var t, first, before, after :=
        repo.canon(items[i].1), CopyAll(repo, force, quiet, items[..i + 1]),
        CopyAll(repo, force, quiet, items[..j]), CopyAll(repo, force, quiet, items[..j + 1]);
      after.errs == before.errs + [(items[j].0.abs, "")] &&
      after.success == before.success + [items[j].0.abs] &&
      t in after.targets && after.targets[t] == first.targets[t]
  {
    var before := CopyAll(repo, force, quiet, items[..j]);
    ClaimsKept(repo, force, quiet, items[..j], i + 1);
    assert items[..j][..i + 1] == items[..i + 1];
    CopyAllPrefixStep(repo, force, quiet, items, j);
    CopyFileCollides(repo, force, quiet, before.targets, items[j].0, items[j].1);
  }

  /** The copy loop over one more item of a list */
  lemma CopyAllPrefixStep(repo: Repo, force: bool, quiet: bool, items: seq<(Source, string)>, j: nat)
    requires j < |items|
    ensures CopyAll(repo, force, quiet, items[..j + 1]) == CopyTurn(repo, force, quiet, CopyAll(repo, force, quiet, items[..j]), items[j])
  {
    assert items[..j + 1][..j] == items[..j];
  }

  /** copyfile onto a target already claimed changes no claim, records the
      collision and is not a failure. */
  lemma CopyFileCollides(repo: Repo, force: bool, quiet: bool, targets: map<string, string>, src: Source, otarget: string)
    requires repo.canon(otarget) in targets
    ensures var c := CopyFile(repo, force, quiet, targets, src, otarget);
      c.targets == targets && c.errs == [(src.abs, "")] && !c.failed
  {
  }

  /** No copy of an item meets an I/O error other than a missing source */
  predicate NoIOFailure(repo: Repo, items: seq<(Source, string)>) {
    forall i :: 0 <= i < |items| ==> !repo.copy(items[i].0.abs, repo.canon(items[i].1)).IOFailure?
  }

  /** When no copy meets an I/O error, every walked source is reported as
      copied, refused ones included, in walk order. */
  lemma {:induction false} AllCopiedUnlessIOFailure(repo: Repo, force: bool, quiet: bool, items: seq<(Source, string)>)
    requires NoIOFailure(repo, items)
    ensures CopyAll(repo, force, quiet, items).success == SourcesOf(items)
    ensures CopyAll(repo, force, quiet, items).failures == 0
    decreases |items|
  {
    if items != [] {
      var init := items[..|items| - 1];
      var last := items[|items| - 1];
      assert NoIOFailure(repo, init) by {
        forall i | 0 <= i < |init| ensures !repo.copy(init[i].0.abs, repo.canon(init[i].1)).IOFailure? {
          assert init[i] == items[i];
        }
      }
      AllCopiedUnlessIOFailure(repo, force, quiet, init);
      CopyFileSucceeds(repo, force, quiet, CopyAll(repo, force, quiet, init).targets, last.0, last.1);
      SourcesOfInit(items);
    }
  }

  lemma SourcesOfInit(items: seq<(Source, string)>)
    requires items != []
    ensures SourcesOf(items) == SourcesOf(items[..|items| - 1]) + [items[|items| - 1].0.abs]
  {
  }

  /** copyfile fails only on an I/O error. */
  lemma CopyFileSucceeds(repo: Repo, force: bool, quiet: bool, targets: map<string, string>, src: Source, otarget: string)
    requires !repo.copy(src.abs, repo.canon(otarget)).IOFailure?
    ensures !CopyFile(repo, force, quiet, targets, src, otarget).failed
  {
  }

  lemma CopyAllSnoc(repo: Repo, force: bool, quiet: bool, items: seq<(Source, string)>, item: (Source, string))
    ensures CopyAll(repo, force, quiet, items + [item]) == CopyTurn(repo, force, quiet, CopyAll(repo, force, quiet, items), item)
  {
    assert (items + [item])[..|items|] == items;
  }

  /** The outcome of hg_copy: its result, and every warning written on the way,
      those of the walks included when it aborts for having nothing to copy */
  datatype CopyRun = CopyRun(result: Result<(seq<(string, string)>, seq<string>)>, warns: seq<string>)

  function HgCopySpec(repo: Repo, pats: seq<string>, force: bool, quiet: bool): CopyRun {
    var args := CopyArgs(repo, pats);
    if args.Err? then CopyRun(Err(args.error), [])
    else
      var (srcpats, dest, destdirexists) := args.value;
      var w := WalkPats(repo, srcpats);
      if w.copylist == [] then CopyRun(Err(Abort("no files to copy")), w.warns)
      else
        var c := CopyAll(repo, force, quiet, ItemsOf(repo, w.copylist, dest, destdirexists));
        CopyRun(Ok((w.errs + c.errs, c.success)), w.warns + c.warns)
  }

  /** hg_copy aborts with "no files to copy" when the arguments are accepted
      but no source pattern yields a file it may copy. */
  lemma NothingToCopy(repo: Repo, pats: seq<string>, force: bool, quiet: bool)
    requires CopyArgs(repo, pats).Ok?
    requires forall p :: p in pats[..|pats| - 1] ==> WalkHits(repo, repo.walk(p)).srcs == []
    ensures HgCopySpec(repo, pats, force, quiet).result == Err(Abort("no files to copy"))
  {
  }

  /** When the arguments are accepted, something is walked and no copy meets an
      I/O error, hg_copy reports every walked source as copied, in walk order,
      after the walk's error entries. */
  lemma HgCopyReportsAll(repo: Repo, pats: seq<string>, force: bool, quiet: bool,
                         srcpats: seq<string>, dest: string, destdirexists: bool)
    requires CopyArgs(repo, pats) == Ok((srcpats, dest, destdirexists))
    requires WalkPats(repo, srcpats).copylist != []
    requires NoIOFailure(repo, ItemsOf(repo, WalkPats(repo, srcpats).copylist, dest, destdirexists))
    ensures var w := WalkPats(repo, srcpats);
      HgCopySpec(repo, pats, force, quiet).result ==
        Ok((w.errs + CopyAll(repo, force, quiet, ItemsOf(repo, w.copylist, dest, destdirexists)).errs,
            SourcesOf(ItemsOf(repo, w.copylist, dest, destdirexists))))
  {
    AllCopiedUnlessIOFailure(repo, force, quiet, ItemsOf(repo, WalkPats(repo, srcpats).copylist, dest, destdirexists));
  }

  /** walkpat: the sources one pattern yields, with its warnings written to ui */
  method WalkPat(ui: Ui, repo: Repo, pat: string) returns (srcs: seq<Source>, errs: seq<(string, string)>)
    modifies ui
    ensures var w := WalkHits(repo, repo.walk(pat)); srcs == w.srcs && errs == w.errs
    ensures (ui.errors, ui.written) == Sink(old(ui.errors), old(ui.written), WalkHits(repo, repo.walk(pat)).warns)
  {
    var hits := repo.walk(pat);
    srcs, errs := [], [];
    ghost var warns: seq<string> := [];
    SinkNothing(ui.errors, ui.written);
    var i := 0;
    while i < |hits|
      invariant 0 <= i <= |hits|
      invariant WalkPrefix(repo, hits, i) == WalkResult(srcs, warns, errs)
      invariant (ui.errors, ui.written) == Sink(old(ui.errors), old(ui.written), warns)
    {
      var h := hits[i];
      ghost var next := WalkHit(repo, WalkResult(srcs, warns, errs), h);
      var state := repo.state(h.abs);
      if state == '?' || state == 'r' {
        if h.exact {
          // the reason names the state: not managed for '?', marked for remove for 'r'
          var reason := SkipReason(state);
          var m := h.rel + ": " + reason + "\n";
          SinkTwice(old(ui.errors), old(ui.written), warns, [m]);
          ui.WriteErr([m]);
          warns := warns + [m];
          errs := errs + [(h.abs, reason)];
        }
      } else {
        srcs := srcs + [h];
      }
      assert WalkPrefix(repo, hits, i + 1) == next == WalkResult(srcs, warns, errs);
      i := i + 1;
    }
    WalkPrefixIsWalkHits(repo, hits, i);
    assert hits[..i] == hits;
  }

  /** copyfile: one source copied to its target, its warnings written to ui */
  method CopyOne(ui: Ui, repo: Repo, force: bool, quiet: bool, targets: map<string, string>,
                 src: Source, otarget: string)
    returns (newTargets: map<string, string>, errs: seq<(string, string)>, failed: bool)
    modifies ui
    ensures var c := CopyFile(repo, force, quiet, targets, src, otarget);
      newTargets == c.targets && errs == c.errs && failed == c.failed
    ensures (ui.errors, ui.written) ==
      Sink(old(ui.errors), old(ui.written), CopyFile(repo, force, quiet, targets, src, otarget).warns)
  {
    var abstarget := repo.canon(otarget);
    var reltarget := repo.pathto(abstarget);
    newTargets, errs, failed := targets, [], false;
    if abstarget in targets {
      ui.WriteErr([reltarget + ": not overwriting - " + repo.pathto(src.abs) + " collides with " +
                   repo.pathto(targets[abstarget]) + "\n"]);
      errs := [(src.abs, "")];
      return;
    }
    if Present(repo, abstarget) && !force {
      ui.WriteErr([reltarget + ": not overwriting - file exists\n"]);
      errs := [(src.abs, "destination exists")];
      return;
    }
    var outcome := repo.copy(src.abs, abstarget);
    if outcome.IOFailure? {
      ui.WriteErr([src.rel + ": cannot copy - " + outcome.strerror + "\n"]);
      errs := [(src.abs, "cannot copy - " + outcome.strerror)];
      failed := true;
      return;
    }
    newTargets, errs := ClaimTarget(ui, repo, quiet, targets, src, abstarget, outcome);
  }

  /** The end of copyfile once the copy is made: the target is claimed for the
      source, with the warnings for a deleted source and for an uncommitted one */
  method ClaimTarget(ui: Ui, repo: Repo, quiet: bool, targets: map<string, string>, src: Source,
                     abstarget: string, outcome: CopyOutcome)
    returns (newTargets: map<string, string>, errs: seq<(string, string)>)
    requires !outcome.IOFailure?
    modifies ui
    ensures var c := Claim(repo, quiet, targets, src, abstarget, outcome);
      newTargets == c.targets && errs == c.errs
    ensures (ui.errors, ui.written) ==
      Sink(old(ui.errors), old(ui.written), Claim(repo, quiet, targets, src, abstarget, outcome).warns)
  {
    SinkNothing(ui.errors, ui.written);
    errs := [];
    var w1 := MissingWarns(src, outcome);
    if outcome.Missing? {
      ui.WriteErr(w1);
      errs := [(src.abs, "deleted in working copy")];
    }
    newTargets := targets[abstarget := src.abs];
    var w2 := UncommittedWarns(repo, quiet, src, abstarget);
    SinkTwice(old(ui.errors), old(ui.written), w1, w2);
    if w2 != [] {
      ui.WriteErr(w2);
    } else {
      assert w1 + w2 == w1;
    }
  }

  /** The walk over every source pattern: the copy list and the walk's error
      entries, with its warnings written to ui */
  method WalkAll(ui: Ui, repo: Repo, srcpats: seq<string>)
    returns (copylist: seq<(string, seq<Source>)>, errormsg: seq<(string, string)>)
    modifies ui
    ensures var w := WalkPats(repo, srcpats); copylist == w.copylist && errormsg == w.errs
    ensures (ui.errors, ui.written) == Sink(old(ui.errors), old(ui.written), WalkPats(repo, srcpats).warns)
  {
    copylist, errormsg := [], [];
    ghost var warns: seq<string> := [];
    SinkNothing(ui.errors, ui.written);
    var i := 0;
    while i < |srcpats|
      invariant 0 <= i <= |srcpats|
      invariant WalkPats(repo, srcpats[..i]) == WalkAllResult(copylist, warns, errormsg)
      invariant (ui.errors, ui.written) == Sink(old(ui.errors), old(ui.written), warns)
    {
      assert srcpats[..i + 1][..i] == srcpats[..i];
      var pat := srcpats[i];
      var srcs, errs := WalkPat(ui, repo, pat);
      SinkTwice(old(ui.errors), old(ui.written), warns, WalkHits(repo, repo.walk(pat)).warns);
      warns := warns + WalkHits(repo, repo.walk(pat)).warns;
      errormsg := errormsg + errs;
      if srcs != [] {
        copylist := copylist + [(pat, srcs)];
      }
      i := i + 1;
    }
    assert srcpats[..i] == srcpats;
  }

  /** One more source of a pattern, with its target, follows the ones before it. */
  lemma PatItemsStep(repo: Repo, done: seq<(Source, string)>, entry: (string, seq<Source>), dest: string,
                     destdirexists: bool, k: nat)
    requires k < |entry.1|
    ensures var pitems := PatItems(repo, entry, dest, destdirexists);
      done + pitems[..k + 1] ==
        (done + pitems[..k]) + [(entry.1[k], TargetPath(repo, entry.0, dest, destdirexists, entry.1[k].abs))]
  {
    var pitems := PatItems(repo, entry, dest, destdirexists);
    assert pitems[..k + 1] == pitems[..k] + [pitems[k]];
  }

  /** One turn of the copy loop: copyfile on one source and its target, with
      the loop's tallies brought up to date */
  method CopyItem(ui: Ui, repo: Repo, force: bool, quiet: bool, src: Source, otarget: string,
                  ghost e0: seq<seq<string>>, ghost w0: seq<string>, ghost warns: seq<string>,
                  targets: map<string, string>, errs: seq<(string, string)>, success: seq<string>, failures: nat)
    returns (ghost warns': seq<string>,
             targets': map<string, string>, errs': seq<(string, string)>, success': seq<string>, failures': nat)
    requires (ui.errors, ui.written) == Sink(e0, w0, warns)
    modifies ui
    ensures CopyState(targets', warns', errs', success', failures') ==
      CopyTurn(repo, force, quiet, CopyState(targets, warns, errs, success, failures), (src, otarget))
    ensures (ui.errors, ui.written) == Sink(e0, w0, warns')
  {
    ghost var c := CopyFile(repo, force, quiet, targets, src, otarget);
    var e, failed;
    targets', e, failed := CopyOne(ui, repo, force, quiet, targets, src, otarget);
    SinkTwice(e0, w0, warns, c.warns);
    warns' := warns + c.warns;
    errs' := errs + e;
    success', failures' := success, failures;
    if failed {
      failures' := failures + 1;
    } else {
      success' := success + [src.abs];
    }
  }

  /** The inner copy loop: every source one pattern yielded, copied to its
      target, after the items done before */
  method CopyPat(ui: Ui, repo: Repo, force: bool, quiet: bool, entry: (string, seq<Source>), dest: string,
                 destdirexists: bool, ghost done: seq<(Source, string)>,
                 ghost e0: seq<seq<string>>, ghost w0: seq<string>, ghost warns: seq<string>,
                 targets: map<string, string>, errs: seq<(string, string)>, success: seq<string>, failures: nat)
    returns (ghost warns': seq<string>,
             targets': map<string, string>, errs': seq<(string, string)>, success': seq<string>, failures': nat)
    requires CopyAll(repo, force, quiet, done) == CopyState(targets, warns, errs, success, failures)
    requires (ui.errors, ui.written) == Sink(e0, w0, warns)
    modifies ui
    ensures CopyAll(repo, force, quiet, done + PatItems(repo, entry, dest, destdirexists)) ==
      CopyState(targets', warns', errs', success', failures')
    ensures (ui.errors, ui.written) == Sink(e0, w0, warns')
  {
    warns', targets', errs', success', failures' := warns, targets, errs, success, failures;
    ghost var pitems := PatItems(repo, entry, dest, destdirexists);
    assert done + pitems[..0] == done;
    var k := 0;
    while k < |entry.1|
      invariant 0 <= k <= |entry.1|
      invariant CopyAll(repo, force, quiet, done + pitems[..k]) == CopyState(targets', warns', errs', success', failures')
      invariant (ui.errors, ui.written) == Sink(e0, w0, warns')
    {
      var src := entry.1[k];
      var otarget := TargetPath(repo, entry.0, dest, destdirexists, src.abs);
      PatItemsStep(repo, done, entry, dest, destdirexists, k);
      CopyAllSnoc(repo, force, quiet, done + pitems[..k], (src, otarget));
      warns', targets', errs', success', failures' :=
        CopyItem(ui, repo, force, quiet, src, otarget, e0, w0, warns', targets', errs', success', failures');
      k := k + 1;
    }
    assert pitems[..k] == pitems;
  }

  /** The items of one more copy list entry follow those before it. */
  lemma ItemsOfStep(repo: Repo, copylist: seq<(string, seq<Source>)>, dest: string, destdirexists: bool, j: nat)
    requires j < |copylist|
    ensures ItemsOf(repo, copylist[..j + 1], dest, destdirexists) ==
      ItemsOf(repo, copylist[..j], dest, destdirexists) + PatItems(repo, copylist[j], dest, destdirexists)
  {
    assert copylist[..j + 1][..j] == copylist[..j];
  }

  /** The outer copy loop over the copy list */
  method CopyLoop(ui: Ui, repo: Repo, force: bool, quiet: bool, copylist: seq<(string, seq<Source>)>,
                  dest: string, destdirexists: bool)
    returns (errs: seq<(string, string)>, success: seq<string>)
    modifies ui
    ensures var st := CopyAll(repo, force, quiet, ItemsOf(repo, copylist, dest, destdirexists));
      errs == st.errs && success == st.success && (ui.errors, ui.written) == Sink(old(ui.errors), old(ui.written), st.warns)
  {
    errs, success := [], [];
    var targets: map<string, string> := map[];
    var failures: nat := 0;
    ghost var warns: seq<string> := [];
    ghost var e0, w0 := ui.errors, ui.written;
    SinkNothing(e0, w0);
    var j := 0;
    while j < |copylist|
      invariant 0 <= j <= |copylist|
      invariant CopyAll(repo, force, quiet, ItemsOf(repo, copylist[..j], dest, destdirexists)) ==
        CopyState(targets, warns, errs, success, failures)
      invariant (ui.errors, ui.written) == Sink(e0, w0, warns)
    {
      ItemsOfStep(repo, copylist, dest, destdirexists, j);
      warns, targets, errs, success, failures :=
        CopyPat(ui, repo, force, quiet, copylist[j], dest, destdirexists,
                ItemsOf(repo, copylist[..j], dest, destdirexists), e0, w0, warns, targets, errs, success, failures);
      j := j + 1;
    }
    assert copylist[..j] == copylist;
  }

  /** hg_copy with after and dry_run off: the error entries and the sources
      copied, or the abort; every warning goes through ui */
  method HgCopy(ui: Ui, repo: Repo, pats: seq<string>, force: bool, quiet: bool)
    returns (r: Result<(seq<(string, string)>, seq<string>)>)
    modifies ui
    ensures r == HgCopySpec(repo, pats, force, quiet).result
    ensures (ui.errors, ui.written) == Sink(old(ui.errors), old(ui.written), HgCopySpec(repo, pats, force, quiet).warns)
  {
    var args := CopyArgs(repo, pats);
    if args.Err? {
      SinkNothing(ui.errors, ui.written);
      return Err(args.error);
    }
    var (srcpats, dest, destdirexists) := args.value;
    var copylist, errormsg := WalkAll(ui, repo, srcpats);
    if copylist == [] {
      return Err(Abort("no files to copy"));
    }
    var errs, success := CopyLoop(ui, repo, force, quiet, copylist, dest, destdirexists);
    SinkTwice(old(ui.errors), old(ui.written), WalkPats(repo, srcpats).warns,
              CopyAll(repo, force, quiet, ItemsOf(repo, copylist, dest, destdirexists)).warns);
    return Ok((errormsg + errs, success));
  }
}
