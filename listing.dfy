/** What listdir and the status listing share: the normalised prefix and the
    split of manifest paths under it into file names and sub-directory names. */
module Listing {
  import opened Text

  /** `if path and path[-1] != "/": path += "/"` */
  function NormPrefix(path: string): (p: string)
    ensures p == "" <==> path == ""
    ensures p != "" ==> EndsWith(p, '/')
    ensures StartsWith(p, path) && |p| <= |path| + 1
  {
    if path != "" && path[|path| - 1] != '/' then path + "/" else path
  }

  /** f[:len(p)] == p, for a manifest path f */
  predicate Under(f: string, p: string) {
    StartsWith(f, p)
  }

  /** The slice test f[:l] != path that the loops use is the prefix test. */
  lemma SliceTestIsPrefix(f: string, p: string)
    ensures (f[..if |p| <= |f| then |p| else |f|] == p) <==> Under(f, p)
  {
  }

  /** Remainders without a slash: the names of the files directly under p. */
  function FileNamesOf(keys: set<string>, p: string): set<string> {
    set f | f in keys && Under(f, p) && '/' !in f[|p|..] :: f[|p|..]
  }

  /** n names a file directly under p exactly when p + n is a manifest path
      and n holds no slash. */
  lemma FileNamesOfChar(keys: set<string>, p: string)
    ensures forall n :: n in FileNamesOf(keys, p) <==> '/' !in n && p + n in keys
  {
    var r := FileNamesOf(keys, p);
    forall n | '/' !in n && p + n in keys ensures n in r {
      var f := p + n;
      assert f[|p|..] == n;
    }
    forall n | n in r ensures '/' !in n && p + n in keys {
      var f :| f in keys && Under(f, p) && '/' !in f[|p|..] && n == f[|p|..];
      assert f == p + n;
    }
  }

  /** First component of a remainder, as remain.split('/')[0] */
  function FirstComponent(remain: string): string {
    Split(remain, '/')[0]
  }

  /** The first components of remainders that hold a slash: the names of the
      sub-directories directly under p. */
  function DirNamesOf(keys: set<string>, p: string): set<string> {
    set f | f in keys && Under(f, p) && '/' in f[|p|..] :: FirstComponent(f[|p|..])
  }

  /** A remainder with a slash starts with its first component and a slash. */
  lemma FirstComponentSlash(remain: string)
    requires '/' in remain
    ensures '/' !in FirstComponent(remain)
    ensures StartsWith(remain, FirstComponent(remain) + "/")
  {
    SplitFirst(remain, '/');
    var i := IndexOf(remain, '/');
    assert remain[..i + 1] == remain[..i] + "/";
  }

  lemma FirstComponentOf(d: string, rest: string)
    requires '/' !in d
    ensures FirstComponent(d + "/" + rest) == d
  {
    SplitAppend(d, '/', rest);
    SplitSingle(d, '/');
    assert d + "/" + rest == d + ['/'] + rest;
  }

  /** d names a sub-directory exactly when some manifest path lies under p + d + "/". */
  lemma DirNamesOfChar(keys: set<string>, p: string, d: string)
    ensures d in DirNamesOf(keys, p) <==>
            '/' !in d && exists f :: f in keys && Under(f, p + d + "/")
  {
    if d in DirNamesOf(keys, p) {
      var f :| f in keys && Under(f, p) && '/' in f[|p|..] && FirstComponent(f[|p|..]) == d;
      FirstComponentSlash(f[|p|..]);
      assert f[..|p + d + "/"|] == p + d + "/";
    }
    if '/' !in d && exists f :: f in keys && Under(f, p + d + "/") {
      var f :| f in keys && Under(f, p + d + "/");
      var rest := f[|p + d + "/"|..];
      assert f == p + d + "/" + rest;
      assert f[|p|..] == d + "/" + rest;
      FirstComponentOf(d, rest);
      assert '/' in f[|p|..] by { assert f[|p|..][|d|] == '/'; }
    }
  }

  /** Every manifest path under p is either a file name or inside a sub-directory,
      so both sets are empty exactly when nothing lies under p. */
  lemma NothingUnder(keys: set<string>, p: string)
    ensures FileNamesOf(keys, p) == {} && DirNamesOf(keys, p) == {} <==>
            forall f :: f in keys ==> !Under(f, p)
  {
    if exists f :: f in keys && Under(f, p) {
      var f :| f in keys && Under(f, p);
      var n := f[|p|..];
      assert f == p + n;
      FileNamesOfChar(keys, p);
      if '/' in n {
        assert FirstComponent(n) in DirNamesOf(keys, p);
      } else {
        assert n in FileNamesOf(keys, p);
      }
    }
  }
}
