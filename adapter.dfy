/** The fixed-revision storage adapter (adapter.py): archive naming, the
    archive dispatch, tar composition across subrepositories and the
    response headers of an archive request. */
module Adapter {
  import opened Text
  import opened Failures
  import opened Posix
  import Utility

  /** One member of a tar stream: its path inside the archive and its bytes */
  datatype Member = Member(name: string, payload: seq<byte>)

  /** One substate entry: the subrepository's location inside the owner, the
      URL it was cloned from and the revision it is pinned to */
  datatype Binding = Binding(location: string, source: string, rev: string)

  /** A workspace as the adapter sees it: its URL, its repository directory,
      and for each revision id it knows, that revision's substate in
      iteration order. */
  datatype Workspace = Workspace(url: string, rpath: string, revs: map<string, seq<Binding>>)

  /** The folder holding the workspaces, by id */
  type Folder = map<string, Workspace>

  /** The engine's archive of one revision under a prefix, as tar members */
  type BaseArchive = (Workspace, string, string) -> seq<Member>

  /** What an archive call hands back: an uncompressed tar stream, a gzip
      stream wrapping a tar stream under an inner file name, or the engine's
      own archive in another format. */
  datatype Output =
    | Tar(members: seq<Member>)
    | Gzip(innerName: string, members: seq<Member>)
    | Native(artype: string, members: seq<Member>)

  /** dirname(source) == dirname(owner's absolute_url()) */
  predicate IsLocal(b: Binding, ownerUrl: string) {
    Posix.Dirname(b.source) == Posix.Dirname(ownerUrl)
  }

  function Flatten(parts: seq<seq<Member>>): seq<Member>
    decreases |parts|
  {
    if parts == [] then [] else Flatten(parts[..|parts| - 1]) + parts[|parts| - 1]
  }

  /** _archive_name: the slug of the repository directory name and the short id */
  function ArchiveName(ws: Workspace, rev: string): string {
    Utility.ArchiveRoot(ws.rpath, rev)
  }

  /** How the loop archives one accepted binding */
  type ChildArchiver = Binding -> Result<seq<Member>>

  /** The archives list after the substate loop has visited the bindings bs:
      a binding that fails the locality rule is skipped, an accepted one adds
      its child archive, and the first failure ends the loop. */
  function Collect(ownerUrl: string, bs: seq<Binding>, child: ChildArchiver): Result<seq<seq<Member>>>
    decreases |bs|
  {
    if bs == [] then Ok([])
    else
      var archives :- Collect(ownerUrl, bs[..|bs| - 1], child);
      var b := bs[|bs| - 1];
      if !IsLocal(b, ownerUrl) then Ok(archives)
      else
        var sub :- child(b);
        Ok(archives + [sub])
  }

  /** The substate the loop walks: none at all unless subrepo is set */
  function Substate(ws: Workspace, rev: string, subrepo: bool): seq<Binding>
    requires rev in ws.revs
  {
    if subrepo then ws.revs[rev] else []
  }

  /** The members of _archive_tar(name, subrepo): the engine's archive of this
      revision, then every member of each local subrepository's archive in
      substate order. fuel bounds the nesting depth. */
  function TarMembers(folder: Folder, base: BaseArchive, ws: Workspace, rev: string,
                      name: string, subrepo: bool, fuel: nat): Result<seq<Member>>
    requires rev in ws.revs
    decreases fuel, 2
  {
    var archives :- Collect(ws.url, Substate(ws, rev, subrepo), ChildFn(folder, base, name, fuel));
    Ok(base(ws, rev, name) + Flatten(archives))
  }

  function ChildFn(folder: Folder, base: BaseArchive, name: string, fuel: nat): ChildArchiver
    decreases fuel, 1
  {
    b => ChildMembers(folder, base, b, name, fuel)
  }

  /** What one accepted binding contributes: the workspace named by the last
      component of its source (folder[wid]), pinned at its revision, archived
      as tar under <name>/<location> with its own subrepositories followed. */
  function ChildMembers(folder: Folder, base: BaseArchive, b: Binding, name: string, fuel: nat): Result<seq<Member>>
    decreases fuel, 0
  {
    var wid := Posix.Basename(b.source);
    if wid !in folder then Err(KeyError(wid))
    else if b.rev !in folder[wid].revs then Err(RevisionNotFound("revision " + b.rev + " not found"))
    else if fuel == 0 then Err(RecursionDepth)
    else TarMembers(folder, base, folder[wid], b.rev, name + "/" + b.location, true, fuel - 1)
  }

  /** One more binding visited by the loop */
  lemma CollectStep(ownerUrl: string, bs: seq<Binding>, i: nat, child: ChildArchiver)
    requires i < |bs|
    requires Collect(ownerUrl, bs[..i], child).Ok?
    ensures var archives := Collect(ownerUrl, bs[..i], child).value;
      Collect(ownerUrl, bs[..i + 1], child) ==
        if !IsLocal(bs[i], ownerUrl) then Ok(archives)
        else if child(bs[i]).Ok? then Ok(archives + [child(bs[i]).value])
        else Err(child(bs[i]).error)
  {
    assert bs[..i + 1][..i] == bs[..i];
  }

  /** The first failing binding decides the error: later bindings change nothing. */
  lemma {:induction false} CollectPrefixErr(ownerUrl: string, bs: seq<Binding>, n: nat, child: ChildArchiver)
    requires n <= |bs|
    requires Collect(ownerUrl, bs[..n], child).Err?
    ensures Collect(ownerUrl, bs, child) == Collect(ownerUrl, bs[..n], child)
    decreases |bs|
  {
    if n == |bs| {
      assert bs[..n] == bs;
    } else {
      var init := bs[..|bs| - 1];
      assert init[..n] == bs[..n];
      CollectPrefixErr(ownerUrl, init, n, child);
    }
  }

  /** _archive_tar(name, subrepo, artype) */
  function ArchiveTarSpec(folder: Folder, base: BaseArchive, ws: Workspace, rev: string,
                          name: string, subrepo: bool, artype: string, fuel: nat): Result<Output>
    requires rev in ws.revs
  {
    if artype != "tar" && artype != "tgz" then Err(KeyError("%s not supported for subrepo"))
    else
      var members :- TarMembers(folder, base, ws, rev, name, subrepo, fuel);
      if artype == "tgz" then Ok(Gzip(name + ".tar", members)) else Ok(Tar(members))
  }

  /** A plain tar archive is the composed member list, or its error. */
  lemma TarSpecMembers(folder: Folder, base: BaseArchive, ws: Workspace, rev: string,
                       name: string, subrepo: bool, fuel: nat)
    requires rev in ws.revs
    ensures var t := ArchiveTarSpec(folder, base, ws, rev, name, subrepo, "tar", fuel);
      var m := TarMembers(folder, base, ws, rev, name, subrepo, fuel);
      (m.Err? ==> t == Err(m.error)) && (m.Ok? ==> t == Ok(Tar(m.value)))
  {
    assert "tar" != "tgz" by {
      assert "tar"[1] != "tgz"[1];
    }
  }

  /** A binding that fails makes the whole archive fail with its error. */
  lemma FailedPrefixFails(folder: Folder, base: BaseArchive, ws: Workspace, rev: string,
                          name: string, subrepo: bool, artype: string, fuel: nat, n: nat)
    requires rev in ws.revs
    requires artype == "tar" || artype == "tgz"
    requires n <= |Substate(ws, rev, subrepo)|
    requires Collect(ws.url, Substate(ws, rev, subrepo)[..n], ChildFn(folder, base, name, fuel)).Err?
    ensures ArchiveTarSpec(folder, base, ws, rev, name, subrepo, artype, fuel) ==
            Err(Collect(ws.url, Substate(ws, rev, subrepo)[..n], ChildFn(folder, base, name, fuel)).error)
  {
    CollectPrefixErr(ws.url, Substate(ws, rev, subrepo), n, ChildFn(folder, base, name, fuel));
  }

  /** _archive_tar: collects the local subrepositories' archives in one loop,
      appends their members after the base archive in a second, and gzips the
      result for tgz. */
  method ArchiveTar(folder: Folder, base: BaseArchive, ws: Workspace, rev: string,
                    name: string, subrepo: bool, artype: string, fuel: nat) returns (r: Result<Output>)
    requires rev in ws.revs
    ensures r == ArchiveTarSpec(folder, base, ws, rev, name, subrepo, artype, fuel)
    decreases fuel, 2
  {
    var substate: seq<Binding> := [];
    if subrepo {
      substate := ws.revs[rev];
    }
    if artype != "tar" && artype != "tgz" {
      return Err(KeyError("%s not supported for subrepo"));
    }
    ghost var child := ChildFn(folder, base, name, fuel);
    var archives: seq<seq<Member>> := [];
    var i := 0;
    while i < |substate|
      invariant 0 <= i <= |substate|
      invariant Collect(ws.url, substate[..i], child) == Ok(archives)
    {
      var b := substate[i];
      CollectStep(ws.url, substate, i, child);
      if IsLocal(b, ws.url) {
        var sub := ChildArchive(folder, base, b, name, fuel);
        assert child(b) == sub;
        if sub.Err? {
          FailedPrefixFails(folder, base, ws, rev, name, subrepo, artype, fuel, i + 1);
          return Err(sub.error);
        }
        archives := archives + [sub.value];
      }
      i := i + 1;
    }
    assert substate[..i] == substate;
    var out := AppendMembers(base(ws, rev, name), archives);
    if artype == "tgz" {
      r := Ok(Gzip(name + ".tar", out));
    } else {
      r := Ok(Tar(out));
    }
  }

  /** The second loop of _archive_tar: every member of every collected archive
      is appended, in order, after the base archive's members. */
  method AppendMembers(start: seq<Member>, archives: seq<seq<Member>>) returns (out: seq<Member>)
    ensures out == start + Flatten(archives)
  {
    out := start;
    var j := 0;
    while j < |archives|
      invariant 0 <= j <= |archives|
      invariant out == start + Flatten(archives[..j])
    {
      var a := archives[j];
      var k := 0;
      while k < |a|
        invariant 0 <= k <= |a|
        invariant out == start + Flatten(archives[..j]) + a[..k]
      {
        out := out + [a[k]];
        k := k + 1;
      }
      assert archives[..j + 1][..j] == archives[..j];
      assert a[..k] == a;
      j := j + 1;
    }
    assert archives[..j] == archives;
  }

  /** The loop body for one local binding: look the workspace up in the folder,
      pin it at the bound revision and archive it as tar under <name>/<location>. */
  method ChildArchive(folder: Folder, base: BaseArchive, b: Binding, name: string, fuel: nat)
      returns (r: Result<seq<Member>>)
    ensures r == ChildMembers(folder, base, b, name, fuel)
    decreases fuel, 0
  {
    var wid := Posix.Basename(b.source);
    if wid !in folder {
      return Err(KeyError(wid));
    }
    var o := folder[wid];
    if b.rev !in o.revs {
      return Err(RevisionNotFound("revision " + b.rev + " not found"));
    }
    if fuel == 0 {
      return Err(RecursionDepth);
    }
    var t := ArchiveTar(folder, base, o, b.rev, name + "/" + b.location, true, "tar", fuel - 1);
    TarSpecMembers(folder, base, o, b.rev, name + "/" + b.location, true, fuel - 1);
    if t.Err? {
      return Err(t.error);
    }
    r := Ok(t.value.members);
  }

  /** archive(artype, name, subrepo): tar composition when subrepositories are
      asked for and present, or for tar and tgz; the engine's archive otherwise */
  function ArchiveSpec(folder: Folder, base: BaseArchive, ws: Workspace, rev: string,
                       artype: string, name: Option<string>, subrepo: bool, fuel: nat): Result<Output>
    requires rev in ws.revs
  {
    var n := if name.None? then ArchiveName(ws, rev) else name.value;
    if (subrepo && ws.revs[rev] != []) || artype == "tar" || artype == "tgz" then
      ArchiveTarSpec(folder, base, ws, rev, n, subrepo, artype, fuel)
    else
      Ok(Native(artype, base(ws, rev, n)))
  }

  method Archive(folder: Folder, base: BaseArchive, ws: Workspace, rev: string,
                 artype: string, name: Option<string>, subrepo: bool, fuel: nat) returns (r: Result<Output>)
    requires rev in ws.revs
    ensures r == ArchiveSpec(folder, base, ws, rev, artype, name, subrepo, fuel)
  {
    var n: string;
    if name.None? {
      n := ArchiveName(ws, rev);
    } else {
      n := name.value;
    }
    if (subrepo && ws.revs[rev] != []) || artype == "tar" || artype == "tgz" {
      r := ArchiveTar(folder, base, ws, rev, n, subrepo, artype, fuel);
    } else {
      r := Ok(Native(artype, base(ws, rev, n)));
    }
  }

  // ---------------------------------------------------------------------------
  // Properties of the composition

  /** Asking for subrepositories of a revision that has some, in a format other
      than tar or tgz, fails with KeyError instead of falling back. */
  lemma SubrepoNeedsTar(folder: Folder, base: BaseArchive, ws: Workspace, rev: string,
                        artype: string, name: Option<string>, fuel: nat)
    requires rev in ws.revs && ws.revs[rev] != []
    requires artype != "tar" && artype != "tgz"
    ensures ArchiveSpec(folder, base, ws, rev, artype, name, true, fuel).Err?
    ensures ArchiveSpec(folder, base, ws, rev, artype, name, true, fuel).error.KeyError?
  {
  }

  /** Without subrepo the substate is never consulted: tar and tgz hold only
      the revision's own archive, other formats come from the engine. */
  lemma NoSubrepoBaseOnly(folder: Folder, base: BaseArchive, ws: Workspace, rev: string,
                          artype: string, name: Option<string>, fuel: nat)
    requires rev in ws.revs
    ensures var n := if name.None? then ArchiveName(ws, rev) else name.value;
      var r := ArchiveSpec(folder, base, ws, rev, artype, name, false, fuel);
      r.Ok? &&
      (artype == "tar" ==> r.value == Tar(base(ws, rev, n))) &&
      (artype == "tgz" ==> r.value == Gzip(n + ".tar", base(ws, rev, n))) &&
      (artype != "tar" && artype != "tgz" ==> r.value == Native(artype, base(ws, rev, n)))
  {
    var n := if name.None? then ArchiveName(ws, rev) else name.value;
    assert Collect(ws.url, [], ChildFn(folder, base, n, fuel)) == Ok([]);
    assert Flatten([]) == [];
  }

  /** tgz is the gzip, under name.tar, of exactly the stream tar would give. */
  lemma TgzWrapsTar(folder: Folder, base: BaseArchive, ws: Workspace, rev: string,
                    name: string, subrepo: bool, fuel: nat)
    requires rev in ws.revs
    ensures var t := ArchiveTarSpec(folder, base, ws, rev, name, subrepo, "tar", fuel);
      var g := ArchiveTarSpec(folder, base, ws, rev, name, subrepo, "tgz", fuel);
      (t.Ok? <==> g.Ok?) &&
      (t.Ok? ==> t.value.Tar? && g.value == Gzip(name + ".tar", t.value.members)) &&
      (t.Err? ==> t.error == g.error)
  {
  }

  /** The bindings that pass the locality rule, in order */
  function LocalOnly(bs: seq<Binding>, ownerUrl: string): (r: seq<Binding>)
    ensures forall i :: 0 <= i < |r| ==> IsLocal(r[i], ownerUrl) && r[i] in bs
    ensures forall b :: b in bs && IsLocal(b, ownerUrl) ==> b in r
    decreases |bs|
  {
    if bs == [] then []
    else
      var prev := LocalOnly(bs[..|bs| - 1], ownerUrl);
      var b := bs[|bs| - 1];
      assert forall c :: c in bs ==> c in bs[..|bs| - 1] || c == b;
      if IsLocal(b, ownerUrl) then prev + [b] else prev
  }

  /** A binding whose source lies in another folder contributes nothing and
      raises nothing: the loop gives the same result over the local bindings only. */
  lemma {:induction false} NonLocalSkipped(ownerUrl: string, bs: seq<Binding>, child: ChildArchiver)
    ensures Collect(ownerUrl, bs, child) == Collect(ownerUrl, LocalOnly(bs, ownerUrl), child)
    decreases |bs|
  {
    if bs != [] {
      var init := bs[..|bs| - 1];
      var b := bs[|bs| - 1];
      NonLocalSkipped(ownerUrl, init, child);
      var l := LocalOnly(init, ownerUrl);
      if IsLocal(b, ownerUrl) {
        assert (l + [b])[..|l + [b]| - 1] == l;
      }
    }
  }

  /** When the loop succeeds over local bindings, it holds one archive per
      binding, in order, each being that binding's child archive. */
  lemma {:induction false} CollectIsChildArchives(ownerUrl: string, bs: seq<Binding>, child: ChildArchiver)
    requires forall i :: 0 <= i < |bs| ==> IsLocal(bs[i], ownerUrl)
    requires Collect(ownerUrl, bs, child).Ok?
    ensures var ch := Collect(ownerUrl, bs, child).value;
      |ch| == |bs| && forall i :: 0 <= i < |bs| ==> child(bs[i]) == Ok(ch[i])
    decreases |bs|
  {
    if bs != [] {
      var init := bs[..|bs| - 1];
      CollectIsChildArchives(ownerUrl, init, child);
    }
  }

  /** Every member name starts with the prefix followed by a slash */
  predicate AllUnder(ms: seq<Member>, prefix: string) {
    forall i :: 0 <= i < |ms| ==> StartsWith(ms[i].name, prefix + "/")
  }

  /** The engine names every member of an archive under its prefix. */
  ghost predicate BaseUnderPrefix(base: BaseArchive) {
    forall ws: Workspace, rev: string, prefix: string :: AllUnder(base(ws, rev, prefix), prefix)
  }

  lemma StartsWithTrans(a: string, b: string, c: string)
    requires StartsWith(a, b) && StartsWith(b, c)
    ensures StartsWith(a, c)
  {
    assert a[..|c|] == a[..|b|][..|c|];
  }

  lemma {:induction false} FlattenUnder(parts: seq<seq<Member>>, prefix: string)
    requires forall i :: 0 <= i < |parts| ==> AllUnder(parts[i], prefix)
    ensures AllUnder(Flatten(parts), prefix)
    decreases |parts|
  {
    if parts != [] {
      FlattenUnder(parts[..|parts| - 1], prefix);
      var f := Flatten(parts[..|parts| - 1]);
      var l := parts[|parts| - 1];
      assert forall i :: |f| <= i < |f| + |l| ==> (f + l)[i] == l[i - |f|];
    }
  }

  /** Archives that each keep their members under a prefix collect into
      archives that all do. */
  lemma {:induction false} CollectUnder(ownerUrl: string, bs: seq<Binding>, child: ChildArchiver, prefix: string)
    requires forall b :: b in bs && child(b).Ok? ==> AllUnder(child(b).value, prefix)
    requires Collect(ownerUrl, bs, child).Ok?
    ensures var ch := Collect(ownerUrl, bs, child).value;
      forall i :: 0 <= i < |ch| ==> AllUnder(ch[i], prefix)
    decreases |bs|
  {
    if bs != [] {
      var init := bs[..|bs| - 1];
      assert forall b :: b in init ==> b in bs;
      CollectUnder(ownerUrl, init, child, prefix);
    }
  }

  /** If the engine keeps members under their prefix, the composed archive keeps
      every member, the subrepositories' included, under <name>/. */
  lemma {:induction false} TarMembersUnderName(folder: Folder, base: BaseArchive, ws: Workspace, rev: string,
                                                name: string, subrepo: bool, fuel: nat)
    requires rev in ws.revs
    requires BaseUnderPrefix(base)
    requires TarMembers(folder, base, ws, rev, name, subrepo, fuel).Ok?
    ensures AllUnder(TarMembers(folder, base, ws, rev, name, subrepo, fuel).value, name)
    decreases fuel, 1
  {
    var substate := Substate(ws, rev, subrepo);
    var child := ChildFn(folder, base, name, fuel);
    forall b | b in substate && child(b).Ok? ensures AllUnder(child(b).value, name) {
      ChildMembersUnderName(folder, base, b, name, fuel);
    }
    CollectUnder(ws.url, substate, child, name);
    var ch := Collect(ws.url, substate, child).value;
    FlattenUnder(ch, name);
    assert TarMembers(folder, base, ws, rev, name, subrepo, fuel).value == base(ws, rev, name) + Flatten(ch);
    AllUnderConcat(base(ws, rev, name), Flatten(ch), name);
  }

  lemma AllUnderConcat(a: seq<Member>, b: seq<Member>, prefix: string)
    requires AllUnder(a, prefix) && AllUnder(b, prefix)
    ensures AllUnder(a + b, prefix)
  {
    forall i | 0 <= i < |a + b| ensures StartsWith((a + b)[i].name, prefix + "/") {
      if i >= |a| {
        assert (a + b)[i] == b[i - |a|];
      }
    }
  }

  lemma {:induction false} ChildMembersUnderName(folder: Folder, base: BaseArchive, b: Binding, name: string, fuel: nat)
    requires BaseUnderPrefix(base)
    requires ChildMembers(folder, base, b, name, fuel).Ok?
    ensures AllUnder(ChildMembers(folder, base, b, name, fuel).value, name)
    decreases fuel, 0
  {
    var wid := Posix.Basename(b.source);
    var sub := name + "/" + b.location;
    var ws := folder[wid];
    TarMembersUnderName(folder, base, ws, b.rev, sub, true, fuel - 1);
    var ms := TarMembers(folder, base, ws, b.rev, sub, true, fuel - 1).value;
    AllUnderNested(ms, name, b.location);
  }

  /** Members under <name>/<location> are under <name>. */
  lemma AllUnderNested(ms: seq<Member>, name: string, location: string)
    requires AllUnder(ms, name + "/" + location)
    ensures AllUnder(ms, name)
  {
    var sub := name + "/" + location;
    assert StartsWith(sub + "/", name + "/") by {
      assert (sub + "/")[..|name + "/"|] == name + "/";
    }
    forall i | 0 <= i < |ms| ensures StartsWith(ms[i].name, name + "/") {
      StartsWithTrans(ms[i].name, sub + "/", name + "/");
    }
  }

  /** The composed tar archive is the engine's archive of this revision
      followed by the members of each local subrepository's own archive, in
      substate order: one child archive per local binding. */
  lemma BaseFirst(folder: Folder, base: BaseArchive, ws: Workspace, rev: string,
                  name: string, subrepo: bool, fuel: nat)
    requires rev in ws.revs
    requires TarMembers(folder, base, ws, rev, name, subrepo, fuel).Ok?
    ensures var local := LocalOnly(Substate(ws, rev, subrepo), ws.url);
      exists ch: seq<seq<Member>> :: |ch| == |local| &&
        (forall i :: 0 <= i < |local| ==> ChildMembers(folder, base, local[i], name, fuel) == Ok(ch[i])) &&
        TarMembers(folder, base, ws, rev, name, subrepo, fuel).value == base(ws, rev, name) + Flatten(ch)
  {
    var bs := Substate(ws, rev, subrepo);
    var child := ChildFn(folder, base, name, fuel);
    var local := LocalOnly(bs, ws.url);
    NonLocalSkipped(ws.url, bs, child);
    CollectIsChildArchives(ws.url, local, child);
    var ch := Collect(ws.url, local, child).value;
    assert forall i :: 0 <= i < |local| ==> child(local[i]) == ChildMembers(folder, base, local[i], name, fuel);
    assert TarMembers(folder, base, ws, rev, name, subrepo, fuel).value == base(ws, rev, name) + Flatten(ch);
  }

  // ---------------------------------------------------------------------------
  // The request adapter's archive view

  /** One entry of the engine's archive_specs table */
  datatype ArchiveSpecEntry = ArchiveSpecEntry(mimetype: string, artype: string, extension: string, encoding: Option<string>)

  datatype Header = Header(name: string, value: string)

  /** An encoding is sent when it is present and not empty. */
  predicate Truthy(enc: Option<string>) {
    enc.Some? && enc.value != ""
  }

  function Headers(name: string, spec: ArchiveSpecEntry): (hs: seq<Header>)
    ensures |hs| >= 2
    ensures hs[0] == Header("Content-Type", spec.mimetype)
    ensures hs[1] == Header("Content-Disposition", "attachment; filename=" + name + spec.extension)
    ensures |hs| == 3 <==> Truthy(spec.encoding)
    ensures Truthy(spec.encoding) ==> hs[2] == Header("Content-Encoding", spec.encoding.value)
    ensures |hs| <= 3
  {
    var hs := [Header("Content-Type", spec.mimetype),
               Header("Content-Disposition", "attachment; filename=" + name + spec.extension)];
    if Truthy(spec.encoding) then hs + [Header("Content-Encoding", spec.encoding.value)] else hs
  }

  /** The request adapter's archive(): the request path names the format; an
      unknown one is a KeyError; the archive is built under the default name and
      the headers describe it. */
  method RequestArchive(folder: Folder, base: BaseArchive, specs: map<string, ArchiveSpecEntry>,
                        ws: Workspace, rev: string, type_: string, subrepo: bool, fuel: nat)
      returns (r: Result<(Output, seq<Header>)>)
    requires rev in ws.revs
    ensures type_ !in specs ==> r == Err(KeyError(type_))
    ensures type_ in specs ==>
      var name := ArchiveName(ws, rev);
      var a := ArchiveSpec(folder, base, ws, rev, specs[type_].artype, Some(name), subrepo, fuel);
      (a.Err? ==> r == Err(a.error)) &&
      (a.Ok? ==> r == Ok((a.value, Headers(name, specs[type_]))))
  {
    var name := ArchiveName(ws, rev);
    if type_ !in specs {
      return Err(KeyError(type_));
    }
    var spec := specs[type_];
    var result := Archive(folder, base, ws, rev, spec.artype, Some(name), subrepo, fuel);
    if result.Err? {
      return Err(result.error);
    }
    r := Ok((result.value, Headers(name, spec)));
  }
}
