/** MercurialStorage (utility.py): archive naming, the date-format and archive
    format tables, the sorted file list, the one-level directory listing of a
    manifest and pathinfo. */
module Utility {
  import opened Text
  import opened Failures
  import opened Posix
  import opened Listing

  // ---------------------------------------------------------------------------
  // Archive root naming: re.sub(r"\W+", "-", basename(rpath)) + "-" + shortrev

  /** \w of a byte-string pattern without the LOCALE or UNICODE flags */
  predicate IsWordChar(c: char) {
    'a' <= c <= 'z' || 'A' <= c <= 'Z' || '0' <= c <= '9' || c == '_'
  }

  /** Drops a leading run of non-word characters. */
  function DropNonWord(s: string): (r: string)
    ensures |r| <= |s| && r == s[|s| - |r|..]
    ensures r == [] || IsWordChar(r[0])
    decreases |s|
  {
    if s == [] || IsWordChar(s[0]) then s else DropNonWord(s[1..])
  }

  /** re.sub(r"\W+", "-", s): every maximal run of non-word characters becomes one "-". */
  function Slug(s: string): (r: string)
    decreases |s|
  {
    if s == [] then []
    else if IsWordChar(s[0]) then [s[0]] + Slug(s[1..])
    else "-" + Slug(DropNonWord(s[1..]))
  }

  /** The word characters of a string, in order */
  function Words(s: string): string
    decreases |s|
  {
    if s == [] then [] else (if IsWordChar(s[0]) then [s[0]] else []) + Words(s[1..])
  }

  predicate SlugAlphabet(r: string) {
    forall i :: 0 <= i < |r| ==> IsWordChar(r[i]) || r[i] == '-'
  }

  predicate NoDoubleDash(r: string) {
    forall i :: 0 <= i < |r| - 1 ==> !(r[i] == '-' && r[i + 1] == '-')
  }

  lemma {:induction false} SlugHead(s: string)
    ensures s == [] <==> Slug(s) == []
    ensures s != [] && IsWordChar(s[0]) ==> Slug(s)[0] == s[0]
    ensures s != [] && !IsWordChar(s[0]) ==> Slug(s)[0] == '-'
  {
  }

  /** The slug holds only word characters and "-", and never two "-" in a row. */
  lemma {:induction false} SlugShape(s: string)
    ensures SlugAlphabet(Slug(s))
    ensures NoDoubleDash(Slug(s))
    decreases |s|
  {
    if s != [] {
      if IsWordChar(s[0]) {
        SlugShape(s[1..]);
      } else {
        var t := DropNonWord(s[1..]);
        SlugShape(t);
        SlugHead(t);
      }
    }
  }

  /** Replacing runs of non-word characters keeps every word character, in order. */
  lemma {:induction false} SlugKeepsWords(s: string)
    ensures Words(Slug(s)) == Words(s)
    decreases |s|
  {
    if s != [] {
      if IsWordChar(s[0]) {
        SlugKeepsWords(s[1..]);
        assert ([s[0]] + Slug(s[1..]))[1..] == Slug(s[1..]);
      } else {
        var t := DropNonWord(s[1..]);
        SlugKeepsWords(t);
        DropNonWordWords(s[1..]);
        assert ("-" + Slug(t))[1..] == Slug(t);
      }
    }
  }

  lemma {:induction false} DropNonWordWords(s: string)
    ensures Words(DropNonWord(s)) == Words(s)
    decreases |s|
  {
    if s != [] && !IsWordChar(s[0]) {
      DropNonWordWords(s[1..]);
    }
  }

  lemma {:induction false} SlugWordCons(c: char, t: string)
    requires IsWordChar(c)
    ensures Slug([c] + t) == [c] + Slug(t)
  {
    assert ([c] + t)[1..] == t;
  }

  /** A name made of word characters only is its own slug. */
  lemma {:induction false} SlugFixesWords(s: string)
    requires forall i :: 0 <= i < |s| ==> IsWordChar(s[i])
    ensures Slug(s) == s
    decreases |s|
  {
    if s != [] {
      SlugFixesWords(s[1..]);
      SlugWordCons(s[0], s[1..]);
      assert s == [s[0]] + s[1..];
    }
  }

  lemma SlugDashCons(u: string)
    requires u == [] || IsWordChar(u[0])
    ensures Slug("-" + u) == "-" + Slug(u)
  {
    assert ("-" + u)[1..] == u;
  }

  /** Applying the substitution twice changes nothing more. */
  lemma {:induction false} SlugIdempotent(s: string)
    ensures Slug(Slug(s)) == Slug(s)
    decreases |s|
  {
    if s != [] {
      if IsWordChar(s[0]) {
        var t := Slug(s[1..]);
        assert Slug(s) == [s[0]] + t;
        SlugWordCons(s[0], t);
        SlugIdempotent(s[1..]);
      } else {
        var t := DropNonWord(s[1..]);
        var u := Slug(t);
        assert Slug(s) == "-" + u;
        SlugHead(t);
        SlugDashCons(u);
        SlugIdempotent(t);
      }
    }
  }

  /** filter(rev, 'short'): the first twelve characters of the hex node id */
  function ShortRev(rev: string): (r: string)
    ensures |r| == if |rev| < 12 then |rev| else 12
    ensures StartsWith(rev, r)
  {
    if |rev| <= 12 then rev else rev[..12]
  }

  /** The archive prefix of archive_zip, archive_tgz and the fixed-revision
      adapter's _archive_name */
  function ArchiveRoot(rpath: string, rev: string): string {
    Slug(Basename(rpath)) + "-" + ShortRev(rev)
  }

  predicate IsHexText(s: string) {
    forall i :: 0 <= i < |s| ==> IsHexDigit(s[i])
  }

  lemma AlphabetJoin(a: string, b: string)
    requires SlugAlphabet(a) && SlugAlphabet(b)
    ensures SlugAlphabet(a + "-" + b)
  {
  }

  /** For a hex revision id the archive root is a single path component made
      of word characters and "-" that ends in "-" and the short id. */
  lemma ArchiveRootShape(rpath: string, rev: string)
    requires IsHexText(rev)
    ensures var r := ArchiveRoot(rpath, rev);
      SlugAlphabet(r) && '/' !in r &&
      r == Slug(Basename(rpath)) + "-" + ShortRev(rev)
  {
    var b := Slug(Basename(rpath));
    var s := ShortRev(rev);
    SlugShape(Basename(rpath));
    assert forall i :: 0 <= i < |s| ==> s[i] == rev[i];
    assert SlugAlphabet(s);
    AlphabetJoin(b, s);
  }

  lemma BasenameOfChild(dir: string, n: string)
    requires '/' !in n
    ensures Basename(dir + "/" + n) == n
  {
    var p := dir + "/" + n;
    assert p[|dir|] == '/';
  }

  /** A repository directory whose name is made of word characters keeps
      that name in its archive root: <dir>/pmr2hgtest at a revision whose id
      starts eb2615b6ebf9 archives under pmr2hgtest-eb2615b6ebf9. */
  lemma ArchiveRootOfWordName(dir: string, name: string, rev: string)
    requires forall i :: 0 <= i < |name| ==> IsWordChar(name[i])
    requires |rev| >= 12
    ensures ArchiveRoot(dir + "/" + name, rev) == name + "-" + rev[..12]
  {
    BasenameOfChild(dir, name);
    SlugFixesWords(name);
  }

  /** MercurialStorage.basename: name.split('/')[-1] */
  function StorageBasename(name: string): string {
    var parts := Split(name, '/');
    parts[|parts| - 1]
  }

  /** The storage's own basename agrees with posixpath.basename. */
  lemma StorageBasenameIsBasename(name: string)
    ensures StorageBasename(name) == Basename(name)
  {
    var i := TailStart(name);
    var tail := name[i..];
    SplitSingle(tail, '/');
    if i > 0 {
      var a := name[..i - 1];
      assert name == a + ['/'] + tail;
      SplitAppend(a, '/', tail);
    } else {
      assert name == tail;
    }
  }

  // ---------------------------------------------------------------------------
  // Tables

  /** The date format chosen on the storage, mapped to the engine's filter name;
      any other format raises KeyError. */
  function DateFmtFilter(datefmt: string): (r: Result<string>)
    ensures r.Ok? <==> datefmt in {"rfc2822", "rfc3339", "iso8601"}
    ensures r.Err? ==> r == Err(KeyError(datefmt))
    ensures r == Ok("rfc822date") <==> datefmt == "rfc2822"
    ensures r == Ok("rfc3339date") <==> datefmt == "rfc3339"
    ensures r == Ok("isodate") <==> datefmt == "iso8601"
  {
    if datefmt == "rfc2822" then Ok("rfc822date")
    else if datefmt == "rfc3339" then Ok("rfc3339date")
    else if datefmt == "iso8601" then Ok("isodate")
    else Err(KeyError(datefmt))
  }

  datatype ArchiveFormat = ArchiveFormat(title: string, ext: string, mimetype: string)

  /** _archiveFormats: the two formats the storage offers */
  function ArchiveFormatOf(kind: string): (r: Option<ArchiveFormat>)
    ensures r.Some? <==> kind in {"zip", "tgz"}
    ensures r == Some(ArchiveFormat("Zip File", ".zip", "application/zip")) <==> kind == "zip"
    ensures r == Some(ArchiveFormat("Tarball (gzipped)", ".tar.gz", "application/x-tar")) <==> kind == "tgz"
    ensures r.Some? ==> StartsWith(r.value.ext, ".") && |r.value.mimetype| > 0
  {
    if kind == "zip" then Some(ArchiveFormat("Zip File", ".zip", "application/zip"))
    else if kind == "tgz" then Some(ArchiveFormat("Tarball (gzipped)", ".tar.gz", "application/x-tar"))
    else None
  }

  // ---------------------------------------------------------------------------
  // Manifest, file list, directory listing

  /** What the engine's file context reports for one manifest path: size,
      the date already passed through the date filter, and the description. */
  datatype FileMeta = FileMeta(size: nat, date: string, desc: string)

  type Manifest = map<string, FileMeta>

  /** One formatted listing entry; a directory has no description, so the
      formatter's default "" stands there. */
  datatype Entry = Entry(permissions: string, node: string, date: string, size: string, path: string, desc: string)

  /** files(): sorted(manifest.keys()) */
  method Files(mf: Manifest) returns (r: seq<string>)
    ensures StrictlySorted(r)
    ensures forall f :: f in r <==> f in mf
    ensures |r| == |mf|
  {
    r := SortSet(mf.Keys);
  }

  function DirEntry(p: string, d: string, rev: string): Entry {
    Entry("drwxr-xr-x", rev, "", "", p + d, "")
  }

  function FileEntry(full: string, m: FileMeta, rev: string): Entry {
    Entry("-rw-r--r--", rev, m.date, NatToString(m.size), full, m.desc)
  }

  function DirEntries(names: seq<string>, p: string, rev: string): (r: seq<Entry>)
    ensures |r| == |names|
  {
    seq(|names|, i requires 0 <= i < |names| => DirEntry(p, names[i], rev))
  }

  function FileEntries(names: seq<string>, p: string, mf: Manifest, rev: string): (r: seq<Entry>)
    requires forall i :: 0 <= i < |names| ==> p + names[i] in mf
    ensures |r| == |names|
  {
    seq(|names|, i requires 0 <= i < |names| => FileEntry(p + names[i], mf[p + names[i]], rev))
  }

  /** listdir(path): the path goes through webutil.cleanpath, the engine's
      canonicaliser, whose Abort propagates; then the listing of the clean path */
  ghost function ListdirSpec(mf: Manifest, rev: string, clean: string -> Result<string>, path: string)
    : Result<seq<Entry>>
  {
    match clean(path)
    case Err(e) => Err(e)
    case Ok(c) => CleanListing(mf, rev, c)
  }

  /** The listing of a clean path: the errors raised before the listing
      starts, then every sub-directory entry in name order followed by every
      file entry in name order */
  ghost function CleanListing(mf: Manifest, rev: string, path: string): Result<seq<Entry>> {
    if path in mf then Err(PathNotDir("path is dir: " + path))
    else
      var p := NormPrefix(path);
      var files := FileNamesOf(mf.Keys, p);
      var dirs := DirNamesOf(mf.Keys, p);
      if |mf| > 0 && files == {} && dirs == {} then Err(PathNotFound("path not found: " + p))
      else
        FileNamesOfChar(mf.Keys, p);
        Ok(DirEntries(SortedSet(dirs), p, rev) + FileEntries(SortedSet(files), p, mf, rev))
  }

  /** The loop over the manifest: file names (each mapped to its full path) and
      first-level directory names under the prefix p. */
  method ScanManifest(mf: Manifest, p: string) returns (files: map<string, string>, dirs: set<string>)
    ensures files.Keys == FileNamesOf(mf.Keys, p)
    ensures forall n :: n in files ==> files[n] == p + n
    ensures dirs == DirNamesOf(mf.Keys, p)
  {
    files := map[];
    dirs := {};
    var todo := mf.Keys;
    ghost var done: set<string> := {};
    while todo != {}
      invariant done == mf.Keys - todo && todo <= mf.Keys
      invariant files.Keys <= FileNamesOf(mf.Keys, p)
      invariant forall n :: n in files ==> files[n] == p + n
      invariant forall f :: f in done && Under(f, p) && '/' !in f[|p|..] ==> f[|p|..] in files
      invariant dirs <= DirNamesOf(mf.Keys, p)
      invariant forall f :: f in done && Under(f, p) && '/' in f[|p|..] ==> FirstComponent(f[|p|..]) in dirs
      decreases |todo|
    {
      var f :| f in todo;
      if Under(f, p) {
        var remain := f[|p|..];
        var elements := Split(remain, '/');
        SplitSingle(remain, '/');
        if |elements| == 1 {
          assert f == p + remain;
          files := files[remain := f];
        } else {
          dirs := dirs + {elements[0]};
        }
      }
      todo := todo - {f};
      done := done + {f};
    }
    forall n | n in FileNamesOf(mf.Keys, p) ensures n in files {
      var f :| f in mf.Keys && Under(f, p) && '/' !in f[|p|..] && n == f[|p|..];
    }
  }

  method ListDirs(names: seq<string>, p: string, rev: string) returns (out: seq<Entry>)
    ensures out == DirEntries(names, p, rev)
  {
    out := [];
    var i := 0;
    while i < |names|
      invariant 0 <= i <= |names|
      invariant |out| == i
      invariant forall k :: 0 <= k < i ==> out[k] == DirEntry(p, names[k], rev)
    {
      out := out + [DirEntry(p, names[i], rev)];
      i := i + 1;
    }
  }

  method ListFiles(names: seq<string>, p: string, files: map<string, string>, mf: Manifest, rev: string)
      returns (out: seq<Entry>)
    requires forall k :: 0 <= k < |names| ==> names[k] in files && files[names[k]] == p + names[k]
    requires forall k :: 0 <= k < |names| ==> p + names[k] in mf
    ensures out == FileEntries(names, p, mf, rev)
  {
    out := [];
    var j := 0;
    while j < |names|
      invariant 0 <= j <= |names|
      invariant |out| == j
      invariant forall k :: 0 <= k < j ==> out[k] == FileEntry(p + names[k], mf[p + names[k]], rev)
    {
      var full := files[names[j]];
      out := out + [FileEntry(full, mf[full], rev)];
      j := j + 1;
    }
  }

  /** listdir: one pass over the manifest collects the file names and the
      first-level directory names under the prefix, then both are listed sorted. */
  method Listdir(mf: Manifest, rev: string, clean: string -> Result<string>, path: string)
      returns (r: Result<seq<Entry>>)
    ensures r == ListdirSpec(mf, rev, clean, path)
  {
    var path :- clean(path);
    if path in mf {
      return Err(PathNotDir("path is dir: " + path));
    }
    var p := NormPrefix(path);
    var files, dirs := ScanManifest(mf, p);
    if |mf| > 0 && |files| == 0 && dirs == {} {
      return Err(PathNotFound("path not found: " + p));
    }
    var dnames := SortSet(dirs);
    var fnames := SortSet(files.Keys);
    FileNamesOfChar(mf.Keys, p);
    assert forall k :: 0 <= k < |fnames| ==> fnames[k] in files.Keys;
    var dout := ListDirs(dnames, p, rev);
    var fout := ListFiles(fnames, p, files, mf, rev);
    r := Ok(dout + fout);
    ListdirValue(mf, rev, path);
  }

  lemma ListdirValue(mf: Manifest, rev: string, path: string)
    requires path !in mf
    ensures var p := NormPrefix(path);
      var files := FileNamesOf(mf.Keys, p);
      var dirs := DirNamesOf(mf.Keys, p);
      (forall n :: n in files <==> '/' !in n && p + n in mf) &&
      (|mf| > 0 && files == {} && dirs == {} ==> CleanListing(mf, rev, path) == Err(PathNotFound("path not found: " + p))) &&
      (!(|mf| > 0 && files == {} && dirs == {}) ==>
         CleanListing(mf, rev, path) == Ok(DirEntries(SortedSet(dirs), p, rev) + FileEntries(SortedSet(files), p, mf, rev)))
  {
    FileNamesOfChar(mf.Keys, NormPrefix(path));
  }

  predicate IsDirEntry(e: Entry, rev: string) {
    e.permissions == "drwxr-xr-x" && e.node == rev && e.date == "" && e.size == ""
  }

  predicate IsFileEntry(e: Entry, mf: Manifest, rev: string) {
    e.permissions == "-rw-r--r--" && e.node == rev && e.path in mf &&
    e.date == mf[e.path].date && e.size == NatToString(mf[e.path].size) && e.desc == mf[e.path].desc
  }

  function Paths(es: seq<Entry>): (r: seq<string>)
    ensures |r| == |es|
  {
    seq(|es|, i requires 0 <= i < |es| => es[i].path)
  }

  /** listdir raises the cleaner's error when the path cannot be cleaned, and
      otherwise PathNotDir exactly when the clean path is a manifest file. */
  lemma ListdirOnFile(mf: Manifest, rev: string, clean: string -> Result<string>, path: string)
    ensures clean(path).Err? ==> ListdirSpec(mf, rev, clean, path) == Err(clean(path).error)
    ensures clean(path).Ok? ==>
      (ListdirSpec(mf, rev, clean, path).Err? && ListdirSpec(mf, rev, clean, path).error.PathNotDir? <==>
       clean(path).value in mf)
  {
  }

  /** Once the path is clean, listdir raises PathNotFound exactly when the
      manifest is not empty and no manifest path lies under the clean path's
      prefix; an empty manifest lists nothing and raises nothing. */
  lemma ListdirNotFound(mf: Manifest, rev: string, clean: string -> Result<string>, path: string)
    ensures clean(path).Ok? ==> var r, c := ListdirSpec(mf, rev, clean, path), clean(path).value;
      (r.Err? && r.error.PathNotFound?) <==>
      (c !in mf && |mf| > 0 && forall f :: f in mf ==> !Under(f, NormPrefix(c)))
    ensures mf == map[] && clean(path).Ok? ==> ListdirSpec(mf, rev, clean, path) == Ok([])
  {
    if clean(path).Ok? {
      var c := clean(path).value;
      NothingUnder(mf.Keys, NormPrefix(c));
      if mf == map[] {
        var p := NormPrefix(c);
        assert FileNamesOf(mf.Keys, p) == {};
        assert DirNamesOf(mf.Keys, p) == {};
        ListdirValue(mf, rev, c);
        assert SortedSet({}) == [];
        var e: seq<Entry> := DirEntries([], p, rev) + FileEntries([], p, mf, rev);
        assert e == [];
        assert ListdirSpec(mf, rev, clean, path) == CleanListing(mf, rev, c) == Ok(e);
      }
    }
  }

  lemma DirEntriesFacts(names: seq<string>, p: string, rev: string)
    requires StrictlySorted(names)
    ensures var es := DirEntries(names, p, rev);
      (forall i :: 0 <= i < |es| ==> IsDirEntry(es[i], rev)) &&
      StrictlySorted(Paths(es)) &&
      (forall i :: 0 <= i < |es| ==> es[i].path == p + names[i])
  {
    var es := DirEntries(names, p, rev);
    forall i, j | 0 <= i < j < |es| ensures LexLess(Paths(es)[i], Paths(es)[j]) {
      LexLessPrefix(p, names[i], names[j]);
    }
  }

  lemma FileEntriesFacts(names: seq<string>, p: string, mf: Manifest, rev: string)
    requires StrictlySorted(names)
    requires forall i :: 0 <= i < |names| ==> p + names[i] in mf
    ensures var es := FileEntries(names, p, mf, rev);
      (forall i :: 0 <= i < |es| ==> IsFileEntry(es[i], mf, rev)) &&
      StrictlySorted(Paths(es)) &&
      (forall i :: 0 <= i < |es| ==> es[i].path == p + names[i])
  {
    var es := FileEntries(names, p, mf, rev);
    forall i, j | 0 <= i < j < |es| ensures LexLess(Paths(es)[i], Paths(es)[j]) {
      LexLessPrefix(p, names[i], names[j]);
    }
  }

  /** Directory block then file block, each ascending */
  predicate Blocks(es: seq<Entry>, mf: Manifest, rev: string) {
    exists k :: 0 <= k <= |es| &&
      (forall i :: 0 <= i < k ==> IsDirEntry(es[i], rev)) &&
      (forall i :: k <= i < |es| ==> IsFileEntry(es[i], mf, rev)) &&
      StrictlySorted(Paths(es[..k])) && StrictlySorted(Paths(es[k..]))
  }

  lemma BlocksOf(a: seq<Entry>, b: seq<Entry>, mf: Manifest, rev: string)
    requires forall i :: 0 <= i < |a| ==> IsDirEntry(a[i], rev)
    requires forall i :: 0 <= i < |b| ==> IsFileEntry(b[i], mf, rev)
    requires StrictlySorted(Paths(a)) && StrictlySorted(Paths(b))
    ensures Blocks(a + b, mf, rev)
  {
    var es := a + b;
    var k := |a|;
    assert es[..k] == a && es[k..] == b;
    assert forall i :: k <= i < |es| ==> es[i] == b[i - k];
  }

  /** A listing is a block of directory entries followed by a block of file
      entries, each block in ascending path order. */
  lemma ListdirOrder(mf: Manifest, rev: string, clean: string -> Result<string>, path: string)
    requires ListdirSpec(mf, rev, clean, path).Ok?
    ensures Blocks(ListdirSpec(mf, rev, clean, path).value, mf, rev)
  {
    var c := clean(path).value;
    var p := NormPrefix(c);
    var dn := SortedSet(DirNamesOf(mf.Keys, p));
    var fn := SortedSet(FileNamesOf(mf.Keys, p));
    ListdirValue(mf, rev, c);
    var a := DirEntries(dn, p, rev);
    var b := FileEntries(fn, p, mf, rev);
    assert CleanListing(mf, rev, c).value == a + b;
    DirEntriesFacts(dn, p, rev);
    FileEntriesFacts(fn, p, mf, rev);
    BlocksOf(a, b, mf, rev);
  }

  lemma FilesOfBlocks(a: seq<Entry>, b: seq<Entry>, fn: seq<string>, p: string, mf: Manifest, rev: string, x: string)
    requires forall i :: 0 <= i < |a| ==> IsDirEntry(a[i], rev)
    requires |b| == |fn|
    requires forall i :: 0 <= i < |b| ==> IsFileEntry(b[i], mf, rev) && b[i].path == p + fn[i]
    ensures (exists e :: e in a + b && IsFileEntry(e, mf, rev) && e.path == x) <==> (Under(x, p) && x[|p|..] in fn)
  {
    if exists e :: e in a + b && IsFileEntry(e, mf, rev) && e.path == x {
      var e :| e in a + b && IsFileEntry(e, mf, rev) && e.path == x;
      assert e !in a;
      var i :| 0 <= i < |b| && b[i] == e;
      assert x == p + fn[i];
      assert x[|p|..] == fn[i];
    }
    if Under(x, p) && x[|p|..] in fn {
      var i :| 0 <= i < |fn| && fn[i] == x[|p|..];
      assert x == p + fn[i];
      assert b[i] in a + b;
    }
  }

  lemma DirsOfBlocks(a: seq<Entry>, b: seq<Entry>, dn: seq<string>, p: string, mf: Manifest, rev: string, x: string)
    requires |a| == |dn|
    requires forall i :: 0 <= i < |a| ==> IsDirEntry(a[i], rev) && a[i].path == p + dn[i]
    requires forall i :: 0 <= i < |b| ==> IsFileEntry(b[i], mf, rev)
    ensures (exists e :: e in a + b && IsDirEntry(e, rev) && e.path == p + x) <==> x in dn
  {
    if exists e :: e in a + b && IsDirEntry(e, rev) && e.path == p + x {
      var e :| e in a + b && IsDirEntry(e, rev) && e.path == p + x;
      assert e !in b;
      var i :| 0 <= i < |a| && a[i] == e;
      assert dn[i] == (p + dn[i])[|p|..] == (p + x)[|p|..] == x;
    }
    if x in dn {
      var i :| 0 <= i < |dn| && dn[i] == x;
      assert a[i] in a + b;
    }
  }

  /** The file entries are exactly the manifest paths directly under the prefix. */
  lemma ListdirFiles(mf: Manifest, rev: string, clean: string -> Result<string>, path: string, x: string)
    requires ListdirSpec(mf, rev, clean, path).Ok?
    ensures var es := ListdirSpec(mf, rev, clean, path).value; var p := NormPrefix(clean(path).value);
      (exists e :: e in es && IsFileEntry(e, mf, rev) && e.path == x) <==>
      (x in mf && Under(x, p) && '/' !in x[|p|..])
  {
    var c := clean(path).value;
    var p := NormPrefix(c);
    var dn := SortedSet(DirNamesOf(mf.Keys, p));
    var fn := SortedSet(FileNamesOf(mf.Keys, p));
    ListdirValue(mf, rev, c);
    var a := DirEntries(dn, p, rev);
    var b := FileEntries(fn, p, mf, rev);
    assert CleanListing(mf, rev, c).value == a + b;
    DirEntriesFacts(dn, p, rev);
    FileEntriesFacts(fn, p, mf, rev);
    assert ListdirSpec(mf, rev, clean, path) == CleanListing(mf, rev, c);
    FilesOfBlocks(a, b, fn, p, mf, rev, x);
    FileNameUnder(mf, p, x);
  }

  /** x is listed as a file under p exactly when it is a manifest path
      directly under p */
  lemma FileNameUnder(mf: Manifest, p: string, x: string)
    ensures (Under(x, p) && x[|p|..] in SortedSet(FileNamesOf(mf.Keys, p))) <==>
      (x in mf && Under(x, p) && '/' !in x[|p|..])
  {
    FileNamesOfChar(mf.Keys, p);
    if Under(x, p) {
      var n := x[|p|..];
      assert x == p + n;
    }
  }

  /** The directory entries are exactly prefix + the distinct first components
      of the manifest paths that lie deeper under the prefix. */
  lemma ListdirDirs(mf: Manifest, rev: string, clean: string -> Result<string>, path: string, x: string)
    requires ListdirSpec(mf, rev, clean, path).Ok?
    ensures var es := ListdirSpec(mf, rev, clean, path).value; var p := NormPrefix(clean(path).value);
      (exists e :: e in es && IsDirEntry(e, rev) && e.path == p + x) <==>
      ('/' !in x && exists f :: f in mf && Under(f, p + x + "/"))
  {
    var c := clean(path).value;
    var p := NormPrefix(c);
    var dn := SortedSet(DirNamesOf(mf.Keys, p));
    var fn := SortedSet(FileNamesOf(mf.Keys, p));
    ListdirValue(mf, rev, c);
    var a := DirEntries(dn, p, rev);
    var b := FileEntries(fn, p, mf, rev);
    assert CleanListing(mf, rev, c).value == a + b;
    DirEntriesFacts(dn, p, rev);
    FileEntriesFacts(fn, p, mf, rev);
    DirsOfBlocks(a, b, dn, p, mf, rev, x);
    DirNamesOfChar(mf.Keys, p, x);
  }

  /** What pathinfo returns: the file's own record, or a directory record
      whose contents are the path's listing. */
  datatype PathInfo =
    | FileInfo(path: string, meta: FileMeta)
    | DirInfo(entry: Entry, contents: seq<Entry>)

  ghost function PathinfoSpec(mf: Manifest, rev: string, clean: string -> Result<string>, path: string)
    : Result<PathInfo>
  {
    if path in mf then Ok(FileInfo(path, mf[path]))
    else
      match ListdirSpec(mf, rev, clean, path)
      case Err(e) => Err(e)
      case Ok(l) => Ok(DirInfo(Entry("drwxr-xr-x", rev, "", "", path, ""), l))
  }

  method Pathinfo(mf: Manifest, rev: string, clean: string -> Result<string>, path: string) returns (r: Result<PathInfo>)
    ensures r == PathinfoSpec(mf, rev, clean, path)
  {
    var fs := Files(mf);
    if path in fs {
      r := Ok(FileInfo(path, mf[path]));
    } else {
      var listing := Listdir(mf, rev, clean, path);
      match listing
      case Err(e) => r := Err(e);
      case Ok(l) => r := Ok(DirInfo(Entry("drwxr-xr-x", rev, "", "", path, ""), l));
    }
  }

  /** pathinfo answers with file info for a manifest file, tested on the path
      as given, and otherwise with a directory record whose contents are the
      listing. Its failures are the listing's: the cleaner's error,
      PathNotDir when the clean path is a file, or PathNotFound. */
  lemma PathinfoCases(mf: Manifest, rev: string, clean: string -> Result<string>, path: string)
    ensures var r := PathinfoSpec(mf, rev, clean, path);
      (path in mf ==> r == Ok(FileInfo(path, mf[path]))) &&
      (path !in mf && r.Ok? ==>
         (r.value.DirInfo? && IsDirEntry(r.value.entry, rev) &&
          r.value.entry.path == path && Ok(r.value.contents) == ListdirSpec(mf, rev, clean, path))) &&
      (path !in mf && clean(path).Err? ==> r == Err(clean(path).error)) &&
      (path !in mf && clean(path).Ok? ==> var c := clean(path).value;
         (r.Err? <==> c in mf || (|mf| > 0 && forall f :: f in mf ==> !Under(f, NormPrefix(c)))) &&
         (r.Err? ==> (r.error.PathNotDir? <==> c in mf) && (r.error.PathNotDir? || r.error.PathNotFound?)))
  {
    ListdirOnFile(mf, rev, clean, path);
    ListdirNotFound(mf, rev, clean, path);
  }
}
