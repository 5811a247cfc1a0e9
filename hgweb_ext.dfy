/** hgweb_ext.py: the older copy of the status view. It builds the same status
    names, partition and file and directory listings as the one in ext.py, but
    hands its template no combined listing. Its hex_ is the same function as
    ext.py's and is modelled once, as Ext.Hex. */
module HgwebExt {
  import opened Text
  import opened Failures
  import opened Listing
  import Ext

  /** What this status hands its template: no full listing */
  datatype StatusView = StatusView(node: string, path: string, files: Result<seq<Ext.FileRow>>,
                                   dirs: seq<Ext.DirRow>)

  /** hgweb_ext.status (hgweb_ext.py): the status names, the partition of the
      manifest under the path, and the file and directory listings over the
      sorted keys, each agreeing with the newer view. */
  method Status(st: seq<seq<string>>, mf: map<string, Ext.Node>, node: Option<Ext.Node>, path: string)
      returns (v: StatusView, names: map<string, string>, files: map<string, Ext.Slot>)
    ensures forall f :: f in names <==> exists i :: 0 <= i < Ext.Paired(st) && f in st[i]
    ensures forall f :: f in names ==> exists i :: 0 <= i < Ext.Paired(st) && f in st[i] && names[f] == Ext.ChangeTypes[i]
    ensures Ext.Partitioned(mf, NormPrefix(path), files)
    ensures var newer := Ext.StatusSpec(st, names, mf, node, path, files);
      v == StatusView(newer.node, newer.path, newer.files, newer.dirs)
  {
    names := Ext.StatusNames(st);
    var p, fs := Ext.Partition(mf, path);
    files := fs;
    var keys := SortSet(fs.Keys);
    var abspath := "/" + p;
    v := StatusView(Ext.Hex(node), abspath, Ext.FileRowsOf(keys, fs, names), Ext.DirRowsOf(keys, fs, abspath));
  }
}
