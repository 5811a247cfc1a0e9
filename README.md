# pmr2.mercurial in Dafny

This project models the logic that pmr2.mercurial adds on top of the Mercurial
engine. Each module corresponds to one source file:

- `Utility` (utility.py), for `MercurialStorage`:
  - the archive root name `slug(basename(rpath)) + "-" + shortrev`;
  - the date-format and archive-format tables;
  - the sorted file list `files()`;
  - the one-level directory listing `listdir()`;
  - `pathinfo()`.
- `Adapter` (adapter.py):
  - the fixed-revision adapter's `archive` dispatch;
  - `_archive_tar`, which composes the owner's tar archive with the archives of
    the subrepositories that live in the same folder (the locality rule);
  - the request adapter's response headers.
- `Backend` and `Pmr2Ui` (backend.py):
  - the `pmr2ui` stack of buffered error messages;
  - changeset and file-context selection in `Storage`;
  - the sandbox path guard `_fullpath`;
  - the argument checks of `_source_check`, `_filter_paths`, `commit`, `mkdir`
    and `rename`.
- `Ext` (ext.py):
  - `hex_`;
  - the working-copy `status` view: the status names, the partition of the
    manifest under a path, and the file, directory and full listings;
  - `hg_copy`, the copy/rename command that reports what it copied and why it
    refused the rest.
- `HgwebExt` (hgweb_ext.py): the older `status` view, which has no full listing.
  Its `hex_` (hgweb_ext.py:20-24) is the same function as ext.py's and is
  modelled once, as `Ext.Hex`.
- `Protocol` (protocol.py): deciding from request headers whether a Mercurial
  client sent the request.
- `Hooks` (hooks.py): the push hook that rejects more than one head per branch.

`Text`, `Posix`, `Listing` and `Failures` hold the Python operations the core
relies on:

- `str.startswith`, `split` and `join`, byte-wise ordering and `sorted`,
  `hexlify`, and decimal text (`Text`);
- `posixpath`'s `basename`, `dirname`, `join` and `normpath` (`Posix`);
- the prefix partition shared by `listdir` and `status` (`Listing`);
- the exceptions (`Failures`). One `Error` datatype stands for all of them.
  `PathNotDir` and `PathExists` are caught as kinds of `PathInvalid`
  (`IsPathInvalid`).

The engine is a parameter everywhere. This covers:

- a manifest as a map from path to metadata;
- the dirstate as a function from path to state character;
- the matcher walk as a function from pattern to sources;
- file-system tests as predicates;
- the engine's own archive of a revision as a function to tar members;
- the outcome of a file copy as a value;
- the changeset lookup as a partial function;
- `webutil.cleanpath`, which listdir applies to its path first, as a function
  to a cleaned path or the engine's error.

Loops in the source become methods with loop invariants. Each is proved equal to
a specification function, and the properties the source promises are lemmas
about those functions. Objects whose state the source changes become classes:
`Pmr2Ui.Ui`, `Backend.Storage` and `Backend.Sandbox`.

The model follows the code where the code departs from its documentation:

- A subrepository whose workspace is missing from the folder raises
  `KeyError` (`folder[wid]`). It is not skipped.
- `rename` returns the warnings it popped from the `pmr2ui` stack, sorted. It
  does not return `hg_copy`'s error list. Its docstring (backend.py:707-709)
  and the test at tests/test_repository.py:705-711, which reads `errs[0][0]`
  as the file name `file1`, expect `(file, reason)` pairs; under the code each
  entry is a warning line, whose first element is a character.
- The sandbox's path checks take the guard as a parameter. `_filter_paths`,
  `mkdir` and the as-written `rename` use `_fullpath` as written; only the
  corrected `Backend.Sandbox.Rename` uses the intended guard.

## Model

| member | source | states |
|---|---|---|
| Utility.SlugShape | pmr2/mercurial/utility.py:102-103 | `re.sub(r"\W+", "-", s)` uses only word characters and `-`, and never holds `--` |
| Utility.SlugHead | pmr2/mercurial/utility.py:102-103 | the slug is empty exactly when the name is; it starts with the name's first character when that is a word character, with `-` otherwise |
| Utility.SlugKeepsWords | pmr2/mercurial/utility.py:102-103 | the slug keeps every word character of the name, in order |
| Utility.SlugFixesWords | pmr2/mercurial/utility.py:102-103 | a name made only of word characters is its own slug |
| Utility.SlugIdempotent | pmr2/mercurial/utility.py:102-103 | slugging twice is slugging once |
| Utility.ShortRev | pmr2/mercurial/utility.py:84-86 | the short id is the first twelve characters of the node id (all of a shorter one) |
| Utility.ArchiveRootShape | pmr2/mercurial/utility.py:110-111 | for a hex id the archive root is one path component of word characters and `-`, namely slug + `-` + short id |
| Utility.ArchiveRootOfWordName | pmr2/mercurial/utility.py:102-103 | a repository at `<dir>/<name>`, where the name is all word characters, gets the root `<name>-<first 12 of id>` |
| Utility.StorageBasenameIsBasename | pmr2/mercurial/utility.py:114-115 | `name.split('/')[-1]` is posixpath's basename |
| Utility.DateFmtFilter | pmr2/mercurial/utility.py:65-78 | rfc2822 gives `rfc822date`, rfc3339 gives `rfc3339date` and iso8601 gives `isodate`, each filter name for exactly that format; any other format is a KeyError naming it |
| Utility.ArchiveFormatOf | pmr2/mercurial/utility.py:71-74 | zip gives ("Zip File", ".zip", "application/zip") and tgz gives ("Tarball (gzipped)", ".tar.gz", "application/x-tar"), each for exactly that kind; no other kind is offered |
| Utility.Files | pmr2/mercurial/utility.py:139-140 | every manifest path appears exactly once, in strictly ascending order |
| Utility.ScanManifest | pmr2/mercurial/utility.py:156-179 | the manifest loop collects the file names directly under the prefix, each with its full path, and the first components of deeper paths |
| Utility.ListDirs | pmr2/mercurial/utility.py:185-203 | the directory rows are prefix + name, `drwxr-xr-x`, with empty date and size, in the given order |
| Utility.ListFiles | pmr2/mercurial/utility.py:205-217 | the file rows carry `-rw-r--r--`, the full path, the filtered date, the decimal size and the description |
| Utility.Listdir | pmr2/mercurial/utility.py:142-219 | listdir gives its specification: the path is cleaned first (the cleaner's error propagates), then the error raised before listing, or all directory rows and then all file rows |
| Utility.ListdirOnFile | pmr2/mercurial/utility.py:149-154 | a path the cleaner refuses raises the cleaner's error; otherwise listdir raises PathNotDir exactly when the cleaned path is itself a manifest file |
| Utility.ListdirNotFound | pmr2/mercurial/utility.py:149-182 | once the path is cleaned, listdir raises PathNotFound exactly when the manifest is non-empty and nothing lies under the cleaned path's prefix; an empty manifest lists nothing |
| Utility.DirEntriesFacts | pmr2/mercurial/utility.py:194-203 | directory rows are directory entries, ascending by path, path = prefix + name |
| Utility.FileEntriesFacts | pmr2/mercurial/utility.py:205-217 | file rows are file entries of the manifest, ascending by path, path = prefix + name |
| Utility.ListdirOrder | pmr2/mercurial/utility.py:184-217 | every directory entry comes before every file entry, and each block is sorted |
| Utility.ListdirFiles | pmr2/mercurial/utility.py:159-170 | the file entries are exactly the manifest paths whose remainder after the cleaned path's prefix holds no `/` |
| Utility.ListdirDirs | pmr2/mercurial/utility.py:164-194 | the directory entries are exactly the cleaned path's prefix + each distinct first component of a deeper path |
| Utility.Pathinfo | pmr2/mercurial/utility.py:221-237 | pathinfo gives its specification: the file test on the path as given, otherwise listdir with its cleaning |
| Utility.PathinfoCases | pmr2/mercurial/utility.py:221-237 | a manifest file (the path as given) gives its file info; anything else gives a directory record whose contents are the listing, or the listing's error: the cleaner's error, PathNotDir exactly when the cleaned path is a file, otherwise PathNotFound exactly when nothing lies under it in a non-empty manifest |
| Adapter.Archive | pmr2/mercurial/adapter.py:70-80 | archive uses the default name when none is given. It goes through `_archive_tar` when subrepositories are asked for and present, or for tar/tgz, and through the engine otherwise |
| Adapter.ArchiveTar | pmr2/mercurial/adapter.py:82-146 | `_archive_tar` gives its specification: a KeyError for formats other than tar/tgz; the first failing subrepository's error; otherwise the base members then the local children's members, gzipped under `name.tar` for tgz |
| Adapter.AppendMembers | pmr2/mercurial/adapter.py:123-132 | the second loop appends every member of every collected archive, in order, after the base members |
| Adapter.ChildArchive | pmr2/mercurial/adapter.py:104-113 | one local binding looks up `folder[basename(source)]`, pins it to the bound revision and archives it as tar under `name/location` |
| Adapter.CollectStep | pmr2/mercurial/adapter.py:97-117 | one loop turn: a non-local binding leaves the archives unchanged, a local one appends its child archive or fails with its error |
| Adapter.CollectPrefixErr | pmr2/mercurial/adapter.py:97-113 | the first failing binding decides the result; later bindings are not consulted |
| Adapter.FailedPrefixFails | pmr2/mercurial/adapter.py:97-113 | a failing subrepository makes the whole `_archive_tar` fail with its error |
| Adapter.SubrepoNeedsTar | pmr2/mercurial/adapter.py:74-94 | asking for subrepositories of a revision that has some, in a format other than tar/tgz, is a KeyError |
| Adapter.NoSubrepoBaseOnly | pmr2/mercurial/adapter.py:87-146 | without subrepo, tar and tgz hold exactly the engine's archive of the revision, and other formats come from the engine |
| Adapter.TgzWrapsTar | pmr2/mercurial/adapter.py:136-144 | tgz is the gzip, under `name.tar`, of exactly the stream tar gives, and fails exactly when tar does |
| Adapter.LocalOnly | pmr2/mercurial/adapter.py:99 | the bindings kept are exactly those whose source shares the dirname of the owner's URL |
| Adapter.NonLocalSkipped | pmr2/mercurial/adapter.py:97-117 | bindings outside the owner's folder are skipped silently: the loop gives the same result over the local bindings alone |
| Adapter.CollectIsChildArchives | pmr2/mercurial/adapter.py:97-113 | over local bindings a successful loop holds one archive per binding, in order, each that binding's child archive |
| Adapter.TarMembersUnderName | pmr2/mercurial/adapter.py:109-113 | if the engine names members under their prefix, every member of the composed archive, nested subrepositories included, lies under `name/` |
| Adapter.ChildMembersUnderName | pmr2/mercurial/adapter.py:112-113 | a child archive made under `name/location` lies under `name/` |
| Adapter.BaseFirst | pmr2/mercurial/adapter.py:97-132 | the composed members are the engine's archive of the revision followed by one child archive per local binding, in substate order, each that binding's own archive under `name/location` |
| Adapter.Headers | pmr2/mercurial/adapter.py:248-256 | Content-Type, then Content-Disposition with name + extension, then Content-Encoding exactly when the encoding is non-empty |
| Adapter.RequestArchive | pmr2/mercurial/adapter.py:231-260 | an unknown type is a KeyError; otherwise the archive's error, or the archive with its headers |
| Pmr2Ui.Ui.WriteErr | pmr2/mercurial/backend.py:43-47 | with a buffer pushed, messages go to the top buffer; with none, they are written out |
| Pmr2Ui.Ui.PushErrors | pmr2/mercurial/backend.py:49-50 | pushing adds one empty buffer on top |
| Pmr2Ui.Ui.PopErrors | pmr2/mercurial/backend.py:52-53 | popping returns and removes the top buffer; an empty stack is an IndexError |
| Pmr2Ui.Sink | pmr2/mercurial/backend.py:43-47 | the buffers below the top and the written output are left alone while a buffer is pushed; with none, everything is written |
| Pmr2Ui.Buffered | pmr2/mercurial/backend.py:43-47 | writing extends the top buffer only |
| Pmr2Ui.BufferedTwice | pmr2/mercurial/backend.py:43-47 | two writes buffer their messages in order |
| Pmr2Ui.SinkTwice | pmr2/mercurial/backend.py:43-47 | two writes equal one write of both message lists |
| Pmr2Ui.SinkNothing | pmr2/mercurial/backend.py:43-47 | writing no messages changes nothing |
| Pmr2Ui.PushWritePop | pmr2/mercurial/backend.py:49-53 | push, write, pop hands back exactly the messages written, and the stack below is unchanged |
| Backend.Resolve | pmr2/mercurial/backend.py:154-170 | no id means "tip"; an id the repository cannot resolve is RevisionNotFound naming it |
| Backend.Storage.ChangeCtx | pmr2/mercurial/backend.py:154-170 | the resolved context is returned and kept; on failure the kept context is unchanged |
| Backend.Storage.FileCtx | pmr2/mercurial/backend.py:276-287 | an empty path is "path not found"; otherwise the changeset is selected first, and a file missing from it is PathNotFound naming the path |
| Backend.FullPath | pmr2/mercurial/backend.py:460-474 | as written: a relative name is normalised under the root, an absolute one kept as given, and the result must start with the root string |
| Backend.FullPathRelativeClean | pmr2/mercurial/backend.py:460-474 | under an absolute root, an accepted relative name has no `..` component |
| Backend.FullPathKeepsDotDot | pmr2/mercurial/backend.py:463-464 | as written, root `/r` accepts `/r/../x` unchanged, although it leaves the root |
| Backend.FullPathAcceptsSibling | pmr2/mercurial/backend.py:470-473 | as written, root `/r` accepts the sibling `/rx` |
| Backend.FullPathContained | pmr2/mercurial/backend.py:460-474 | the guard as intended: accepted exactly when the normalised join is the normalised root or lies below it component-wise; the result is that path and has no `..` |
| Backend.ContainedRefusesSibling | pmr2/mercurial/backend.py:470-473 | the intended guard refuses `/rx` under root `/r` |
| Backend.ContainedSlashedRoot | pmr2/mercurial/backend.py:460-474 | a root kept as given with a trailing slash (`/r/`) still admits `a` as `/r/a` under the intended guard |
| Backend.SourceCheck | pmr2/mercurial/backend.py:489-500 | a string becomes a one-element list; a list of strings is kept; a list with a non-string or any other value is the matching TypeError |
| Backend.Dedup | pmr2/mercurial/backend.py:719 | `set(source)` keeps every name exactly once |
| Backend.FilterPathsKeeps | pmr2/mercurial/backend.py:476-487 | under either guard (`_fullpath` as written or the intended one), the kept paths are exactly the guarded full paths of the given names that exist |
| Backend.FilterPathsSibling | pmr2/mercurial/backend.py:476-487 | as written, `_filter_paths` keeps the existing sibling `/rx` of the root `/r`; with the intended guard it is dropped |
| Backend.FilterPathsAppend | pmr2/mercurial/backend.py:476-487 | filtering a concatenation filters each part in turn, so the kept paths follow the input order and keep its repetitions |
| Backend.FilterPathsOne | pmr2/mercurial/backend.py:476-487 | one name is kept, as its guarded full path, exactly when it passes the guard and exists |
| Backend.MkdirMakesDir | pmr2/mercurial/backend.py:568-587 | under either guard, a successful mkdir leaves the guarded path an existing directory and nothing else changed; a failed one changes nothing |
| Backend.RenamePrecheckTypes | pmr2/mercurial/backend.py:714-717 | under either guard, a source of the wrong type is reported first, then a destination that is not a string |
| Backend.RenamePrecheckPlan | pmr2/mercurial/backend.py:719-733 | under either guard, an accepted rename has a guarded destination; it does nothing exactly when no source passes the guard and exists, otherwise it copies those sources, a single one never onto an existing non-directory |
| Backend.RenamePrecheckNotDir | pmr2/mercurial/backend.py:729-733 | under either guard, a single surviving source onto an existing non-directory raises PathNotDir, and only that case does |
| Backend.RenameNoSource | pmr2/mercurial/backend.py:726-728 | under either guard, with no source that passes the guard and exists, rename returns two empty lists and touches nothing |
| Backend.RenameErrorsSorted | pmr2/mercurial/backend.py:740-748 | on success, rename returns the sorted warnings hg_copy wrote (same multiset) and hg_copy's list of copied sources |
| Backend.RenameUntrackedAborts | pmr2/mercurial/backend.py:740-748 | under either guard, renaming one untracked file aborts with "no files to copy" after buffering its warning |
| Backend.Sandbox.ChangeCtx | pmr2/mercurial/backend.py:448-458 | `_cwd` selects the working context; any other id, None (tip) included, is resolved as in Storage; the kept context changes only on success |
| Backend.Sandbox.Commit | pmr2/mercurial/backend.py:528-542 | an empty message or user is a ValueError; a commit that made a node selects that node |
| Backend.Sandbox.Mkdir | pmr2/mercurial/backend.py:568-587 | mkdir behind the given guard (the sandbox's own mkdir uses `_fullpath` as written) gives the new file system and result of the mkdir specification |
| Backend.Sandbox.RenamePrepare | pmr2/mercurial/backend.py:714-736 | the pre-checks behind the given guard, then the destination directory is made when there are several sources |
| Backend.Sandbox.RenameAsWritten | pmr2/mercurial/backend.py:695-748 | as written: the paths pass `_fullpath`, and when hg_copy aborts, the pushed buffer stays on the error stack; the selected context is left as it was |
| Backend.Sandbox.Rename | pmr2/mercurial/backend.py:695-748 | rename as intended: the paths pass the intended guard, the result is that of the rename specification, the error stack is as before in every case, and the selected context is left as it was |
| Ext.Hex | pmr2/mercurial/ext.py:25-29 | no node is `''`; a node is hex text twice its length |
| Ext.HexRoundTrip | pmr2/mercurial/ext.py:25-29 | the hex text decodes back to the node |
| Ext.StatusNames | pmr2/mercurial/ext.py:60-69 | a file is named exactly when one of the paired status lists holds it, and its name is that list's name |
| Ext.StatusNameUnique | pmr2/mercurial/ext.py:65-69 | when the lists are disjoint, each file's name is the one list that holds it |
| Ext.Partition | pmr2/mercurial/ext.py:76-90 | the prefix gets its trailing slash; each file directly under it is keyed by name with its node, and each sub-directory is keyed `first/` with no node |
| Ext.PartitionFileKeys | pmr2/mercurial/ext.py:81-90 | the keys with a node are exactly the file names directly under the prefix |
| Ext.PartitionDirKeys | pmr2/mercurial/ext.py:81-90 | the keys without a node are exactly `first/` for each sub-directory |
| Ext.Status | pmr2/mercurial/ext.py:45-143 | status builds the names, the partition and the three listings over the sorted keys |
| Ext.FileListing | pmr2/mercurial/ext.py:92-107 | the file listing holds exactly the file keys, sorted, each with its full path and status; it fails exactly when a listed file has no status |
| Ext.DirListing | pmr2/mercurial/ext.py:109-119 | the directory listing holds exactly the directory keys, sorted, with path `/prefix + key` and basename key minus its slash |
| Ext.FullListing | pmr2/mercurial/ext.py:121-130 | every directory row comes before every file row; directory rows drop the leading slash and read `drwxr-xr-x` |
| Ext.WalkHit | pmr2/mercurial/ext.py:299-313 | a managed source is kept; an unmanaged or removed one is skipped, with a warning and error entry only when named exactly |
| Ext.WalkHits | pmr2/mercurial/ext.py:297-315 | the kept sources are exactly the walked ones not marked `?` or `r`; one warning per error entry |
| Ext.WalkErrors | pmr2/mercurial/ext.py:301-310 | one error entry per exactly named skipped source, in order, with the reason for its state |
| Ext.WalkPats | pmr2/mercurial/ext.py:478-483 | every copy-list entry is a given pattern with the sources its walk kept; the list is empty exactly when no pattern kept any |
| Ext.WalkPatsInOrder | pmr2/mercurial/ext.py:478-483 | the copy list has one entry per pattern that kept sources, in pattern order and as often as the pattern is given, each with its walk's sources |
| Ext.CopyArgs | pmr2/mercurial/ext.py:461-473 | no pattern and a single pattern abort; the arguments are accepted exactly when the destination is a real directory or one plain source goes to a name not ending in `/` |
| Ext.TargetPathOfFile | pmr2/mercurial/ext.py:398-416 | a single file goes to the destination itself, or into an existing destination directory under its own base name |
| Ext.Claim | pmr2/mercurial/ext.py:358-372 | a copy that did not fail with an I/O error claims the target for the source; a vanished source adds "deleted in working copy" |
| Ext.CopyFileRules | pmr2/mercurial/ext.py:320-372 | a claimed target is a collision `(src, '')`; an existing target without force is "destination exists"; failure is reported only for an I/O error; claims are never changed and only the canonical target is added |
| Ext.CopyAll | pmr2/mercurial/ext.py:487-494 | every source is counted once, either as a success or as a failure |
| Ext.CopyAllFromItems | pmr2/mercurial/ext.py:487-494 | every success is a walked source, and every claimed target was claimed by a walked source |
| Ext.ClaimsKept | pmr2/mercurial/ext.py:327-336 | a target claimed earlier keeps its source for the rest of the loop |
| Ext.FirstClaimWins | pmr2/mercurial/ext.py:327-336 | a later source aiming at a claimed target is recorded with an empty reason, still counted as a success, and the target keeps its first source |
| Ext.CopyFileCollides | pmr2/mercurial/ext.py:327-336 | copyfile onto a target already claimed changes no claim, records the source with an empty reason and is not a failure |
| Ext.CopyFileSucceeds | pmr2/mercurial/ext.py:349-366 | copyfile reports a failure only when the copy meets an I/O error other than a vanished source |
| Ext.CopyFileAsWritten | pmr2/mercurial/ext.py:349-366 | as written: a copy that meets any I/O error raises NameError, since `errno` is never imported; otherwise it is copyfile as intended |
| Ext.CopyFileRaisesNameError | pmr2/mercurial/ext.py:357-361 | a source that vanished makes the written copyfile raise NameError, where the intended one records "deleted in working copy", claims the target and does not fail |
| Ext.AllCopiedUnlessIOFailure | pmr2/mercurial/ext.py:487-494 | without I/O errors every walked source, refused ones included, is reported as copied, in walk order |
| Ext.NothingToCopy | pmr2/mercurial/ext.py:484-485 | accepted arguments with no copyable source abort with "no files to copy" |
| Ext.HgCopyReportsAll | pmr2/mercurial/ext.py:478-500 | without I/O errors, hg_copy returns the walk's error entries then the copy loop's, and every walked source as a success |
| Ext.WalkPat | pmr2/mercurial/ext.py:297-315 | the walk loop keeps the specified sources and writes their warnings through the ui |
| Ext.CopyOne | pmr2/mercurial/ext.py:320-392 | copyfile gives its specification, and its warnings go through the ui |
| Ext.ClaimTarget | pmr2/mercurial/ext.py:368-388 | the claim and its warnings, written through the ui |
| Ext.WalkAll | pmr2/mercurial/ext.py:478-485 | the walk over all source patterns and its warnings |
| Ext.CopyPat | pmr2/mercurial/ext.py:490-494 | the inner loop over one pattern's sources advances the copy state as specified |
| Ext.CopyLoop | pmr2/mercurial/ext.py:487-494 | the nested success loop gives the specified error entries, successes and warnings |
| Ext.HgCopy | pmr2/mercurial/ext.py:286-500 | hg_copy gives its specification: abort, or error entries and successes, with every warning written through the ui |
| HgwebExt.Status | pmr2/mercurial/hgweb_ext.py:33-105 | the older status builds the same names, partition, node text and file and directory listings as the newer one |
| Protocol.AcceptDecides | pmr2/mercurial/protocol.py:3-5 | when HTTP_ACCEPT is present, the request is from Mercurial exactly when it starts with `application/mercurial-` |
| Protocol.AcceptShadowsAgent | pmr2/mercurial/protocol.py:3-5 | a non-matching HTTP_ACCEPT gives false even for a `mercurial/proto-` User-agent |
| Protocol.AgentDecides | pmr2/mercurial/protocol.py:7-9 | without HTTP_ACCEPT, a User-agent decides by starting with `mercurial/proto-` |
| Protocol.NoHeadersNotMercurial | pmr2/mercurial/protocol.py:8-11 | with neither header, or an empty User-agent, the answer is false |
| Protocol.Decision | pmr2/mercurial/protocol.py:1-11 | the whole decision: the deciding header carries its marker |
| Protocol.StartsWithMarked | pmr2/mercurial/protocol.py:4-9 | `startswith` holds exactly when the header is the marker followed by anything |
| Hooks.OneHeadPerBranch | pmr2/mercurial/hooks.py:4-13 | the hook rejects exactly when it warns |
| Hooks.RejectIffSomeBranchOffends | pmr2/mercurial/hooks.py:4-13 | the push is rejected exactly when some branch has more than one head |
| Hooks.AllSingleHeadedAccepted | pmr2/mercurial/hooks.py:5-13 | with at most one head per branch the hook accepts and warns nothing |
| Hooks.WarnsFirstOffender | pmr2/mercurial/hooks.py:5-12 | the single warning names the first offending branch in iteration order |
| Hooks.LaterBranchesIgnored | pmr2/mercurial/hooks.py:5-12 | branches after the first offender are never consulted |

## Left out

- Repository opening, cloning, pulling, pushing, and writing file content
  (`Storage.__init__`, `create`, `clone`, `pull`, `push`, `add_file_content`,
  `remove`), along with the WSGI bridge `process_request`. They are I/O into the
  engine. `Storage.__init__`'s first `_changectx` call is modelled by
  `Backend.Storage.ChangeCtx`.
- Rendering and Zope glue: `log`, `fileinfo`, file revisions, templates, parity
  generators, mimetypes, adapter lookup, and content classes.
- Tar, gzip and zip byte formats. An archive is a sequence of named members, and
  gzip is a wrapper that keeps the tar members.
- Adapter.TarMembers: nesting of subrepositories is bounded by a fuel argument.
  Running out of fuel is an error the source does not have (it recurses
  without limit).
- Adapter.ArchiveTarSpec: the KeyError carries only the text
  `'%s not supported for subrepo'`. The source passes that text and the format
  as two separate arguments, so the format never appears in the message.
- `hg_copy`'s `after` and `dry_run` modes, and `targetpathafterfn`. `rename` calls
  it with neither.
- `hg_copy`'s dirstate updates (`repo.copy`, `repo.add`, `normallookup`,
  `repo.remove`) and the "moving/copying" status messages. The file-system view
  is one snapshot, so a source removed by an earlier rename turn is not seen as
  gone by later existence checks.
- Ext.TargetPathOfFile: covers only a single file pattern; the directory-pattern
  branch is stated only by `Ext.TargetPath`'s definition.
- Backend.Dedup: `set(source)` has no defined order in Python; the model keeps
  first-occurrence order.
- Backend.MkdirSpec: `os.makedirs` is a predicate saying whether the directory
  could be made. Only that directory is added to the file-system view; its
  missing parents are not.
- Backend.RenameSpec: `ui.quiet` is taken as false, the default of the `pmr2ui`
  the sandbox makes.
- Utility.Listdir: `webutil.cleanpath` is a parameter. Its own rules (the
  leading `/` stripped, `canonpath` normalisation and the path audit) are not
  modelled.
- Utility.ListFiles: a file row's date is an input, the engine's date already
  passed through the date filter. The filter table (`Utility.DateFmtFilter`)
  is not applied inside listdir, so the KeyError of an unknown format, raised
  when the first file row is produced, is not modelled.
- Utility.ListFiles: file rows leave out the lazy `contents` field. As written
  it binds `p`, the directory loop's variable (utility.py:194, 216). Every
  file row's contents would then show the last directory listed, and raise
  NameError when no directory was listed.
- Ext.CopyFileRules: states copyfile's I/O-error handling as intended. As
  written, any I/O error raises NameError (see Findings and
  `Ext.CopyFileAsWritten`).
- Ext.CopyFileSucceeds: the same intended I/O-error handling; as written the
  branches it tells apart raise NameError.
- Ext.Claim: its "deleted in working copy" warning is the intended handling; as
  written that branch raises NameError.
- Ext.CopyOne: inherits CopyFile's intended I/O-error handling; as written an
  I/O error raises NameError out of hg_copy.
- Ext.ClaimTarget: its vanished-source warning is the intended handling and
  cannot be reached as written.
- Ext.HgCopy: an I/O error is reported as an error entry and the loop goes on,
  as intended. As written it raises NameError, which escapes hg_copy and
  `rename`; this is modelled only for one copy, by `Ext.CopyFileAsWritten`.
- Backend.Sandbox.RenameAsWritten: hg_copy inside it handles I/O errors as
  intended; as written such an error raises NameError with the buffer still
  pushed.

## Findings

| source | as written | input that shows it | evidently intended | confidence | as-written member | corrected member |
|---|---|---|---|---|---|---|
| pmr2/mercurial/backend.py:460-474 | `_fullpath` keeps an absolute name as given and accepts it when it starts with the root string | root `/r`: name `/r/../x` is accepted unchanged and `/rx` is accepted, so the as-written `_filter_paths` keeps `/rx` | normalise every name and accept only the root itself or paths below `root + "/"` | not executed | Backend.FullPathAcceptsSibling | Backend.FullPathContained |
| pmr2/mercurial/ext.py:357-366 | the `IOError` handler compares `inst.errno` with `errno.ENOENT`, but ext.py never imports `errno` | a copy whose source has vanished (or any other I/O error) raises NameError, which escapes hg_copy and `rename` | record "deleted in working copy" or "cannot copy - ..." for that source and go on | not executed | Ext.CopyFileRaisesNameError | Ext.CopyFileRules |
| pmr2/mercurial/backend.py:740-748 | `push_errors` is not paired with `pop_errors` in a `finally`, so an Abort from hg_copy leaves the pushed buffer on the stack and later warnings are swallowed | root `/r`, untracked file `a` renamed to `b`: Abort("no files to copy") with the buffer still pushed | pop the buffer on every path | not executed | Backend.Sandbox.RenameAsWritten | Backend.Sandbox.Rename |
