/** The parts of Python 2's posixpath that the core calls: isabs, basename,
    dirname, join and normpath, all purely lexical. */
module Posix {
  import opened Text

  predicate IsAbs(p: string) {
    |p| > 0 && p[0] == '/'
  }

  /** p.rfind('/') + 1: where the last component starts */
  function TailStart(p: string): (i: nat)
    ensures i <= |p|
    ensures '/' !in p[i..]
    ensures i > 0 ==> p[i - 1] == '/'
    decreases |p|
  {
    if |p| == 0 then 0
    else if p[|p| - 1] == '/' then |p|
    else
      var i := TailStart(p[..|p| - 1]);
      assert p[i..] == p[..|p| - 1][i..] + [p[|p| - 1]];
      i
  }

  /** posixpath.basename */
  function Basename(p: string): (r: string)
    ensures '/' !in r
    ensures |r| <= |p| && r == p[|p| - |r|..]
  {
    p[TailStart(p)..]
  }

  /** head.rstrip('/') */
  function RStripSlash(s: string): (r: string)
    ensures |r| <= |s| && r == s[..|r|]
    ensures |r| > 0 ==> r[|r| - 1] != '/'
    ensures forall i :: |r| <= i < |s| ==> s[i] == '/'
    decreases |s|
  {
    if |s| > 0 && s[|s| - 1] == '/' then RStripSlash(s[..|s| - 1]) else s
  }

  predicate AllSlashes(s: string) {
    forall i :: 0 <= i < |s| ==> s[i] == '/'
  }

  /** posixpath.dirname: everything before the last component, without the
      trailing slashes unless it is made of slashes only */
  function Dirname(p: string): (r: string)
    ensures StartsWith(p, r)
  {
    var head := p[..TailStart(p)];
    if head != "" && !AllSlashes(head) then RStripSlash(head) else head
  }

  /** posixpath.join(a, b) */
  function PathJoin(a: string, b: string): (r: string)
    ensures IsAbs(b) ==> r == b
    ensures !IsAbs(b) ==> StartsWith(r, a)
  {
    if IsAbs(b) then b
    else if a == "" || a[|a| - 1] == '/' then a + b
    else a + "/" + b
  }

  lemma {:induction false} TailStartAfter(pre: string, n: string)
    requires '/' !in n && (pre == "" || pre[|pre| - 1] == '/')
    ensures TailStart(pre + n) == |pre|
    decreases |n|
  {
    if n != [] {
      var m := n[..|n| - 1];
      assert (pre + n)[..|pre + n| - 1] == pre + m;
      TailStartAfter(pre, m);
    }
  }

  /** Joining a name without a slash onto a directory puts it last. */
  lemma BasenameJoin(a: string, n: string)
    requires '/' !in n
    ensures StartsWith(PathJoin(a, n), a)
    ensures Basename(PathJoin(a, n)) == n
  {
    var pre := if a == "" || a[|a| - 1] == '/' then a else a + "/";
    var p := PathJoin(a, n);
    assert p == pre + n;
    TailStartAfter(pre, n);
  }

  // ---------------------------------------------------------------------------
  // posixpath.normpath

  /** One or two leading slashes are kept; three or more become one. */
  function InitialSlashes(p: string): (k: nat)
    ensures k <= 2
    ensures k > 0 <==> IsAbs(p)
  {
    if StartsWith(p, "//") && !StartsWith(p, "///") then 2
    else if IsAbs(p) then 1
    else 0
  }

  function Slashes(k: nat): (r: string)
    ensures |r| == k && AllSlashes(r)
  {
    if k == 0 then "" else "/" + Slashes(k - 1)
  }

  /** One iteration of normpath's component loop. */
  function NormStep(acc: seq<string>, comp: string, rooted: bool): seq<string> {
    if comp == "" || comp == "." then acc
    else if comp != ".." || (!rooted && acc == []) || (acc != [] && acc[|acc| - 1] == "..") then acc + [comp]
    else if acc != [] then acc[..|acc| - 1]
    else acc
  }

  function NormFold(comps: seq<string>, rooted: bool, acc: seq<string>): seq<string>
    decreases |comps|
  {
    if comps == [] then acc else NormFold(comps[1..], rooted, NormStep(acc, comps[0], rooted))
  }

  function NormPath(p: string): string {
    if p == "" then "."
    else
      var k := InitialSlashes(p);
      var r := Slashes(k) + Join(NormFold(Split(p, '/'), k > 0, []), '/');
      if r == "" then "." else r
  }

  /** No component of the path is "..". */
  predicate NoDotDot(p: string) {
    ".." !in Split(p, '/')
  }

  predicate CleanComps(acc: seq<string>) {
    forall i :: 0 <= i < |acc| ==> acc[i] != ".." && '/' !in acc[i]
  }

  lemma {:induction false} NormFoldRootedClean(comps: seq<string>, acc: seq<string>)
    requires CleanComps(acc)
    requires forall i :: 0 <= i < |comps| ==> '/' !in comps[i]
    ensures CleanComps(NormFold(comps, true, acc))
    decreases |comps|
  {
    if comps != [] {
      NormFoldRootedClean(comps[1..], NormStep(acc, comps[0], true));
    }
  }

  lemma {:induction false} SplitSlashesPrefix(k: nat, s: string)
    ensures Split(Slashes(k) + s, '/') == seq(k, _ => "") + Split(s, '/')
    decreases k
  {
    if k > 0 {
      SplitSlashesPrefix(k - 1, s);
      assert Slashes(k) + s == "" + ['/'] + (Slashes(k - 1) + s);
      SplitAppend("", '/', Slashes(k - 1) + s);
      assert Split("", '/') == [""];
      assert seq(k, _ => "") == [""] + seq(k - 1, _ => "");
      assert Split(Slashes(k) + s, '/') == [""] + (seq(k - 1, _ => "") + Split(s, '/'));
    } else {
      assert Slashes(k) + s == s;
      assert seq(k, _ => "") + Split(s, '/') == Split(s, '/');
    }
  }

  /** A normalised absolute path has no ".." component, however many the input had. */
  lemma NormPathRootedClean(p: string)
    requires IsAbs(p)
    ensures NoDotDot(NormPath(p))
  {
    var k := InitialSlashes(p);
    SplitPiecesFree(p, '/');
    NormFoldRootedClean(Split(p, '/'), []);
    var acc := NormFold(Split(p, '/'), true, []);
    var j := Join(acc, '/');
    if acc == [] {
      SplitSlashesPrefix(k, j);
    } else {
      SplitJoin(acc, '/');
      SplitSlashesPrefix(k, j);
    }
  }
}
