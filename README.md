# Remote zip browser, modelled in Dafny

The program browses a zip archive on a remote server without downloading
it whole. It reads the archive's entry listing and builds a tree of
directories and files from the entry names. The user then picks nodes,
and an extraction worker copies every file below them to a local
directory, in 64 KiB chunks, emitting progress signals and honouring a
cancel request between any two steps. Two smaller features are covered as
well:

- a "bare" export writes the tree's layout to a new zip with empty payloads;
- a double-clicked file is downloaded to a temporary path that does not
  exist yet.

A helper also sniffs whether a URL holds a zip or a 7z archive from its
first bytes.

The whole logic sits in `main.py`. The model follows it piece by piece:

- `paths.dfy`: the string operations the program relies on: `str.strip("/")`,
  `str.split("/")`, `"/".join` and `os.path.join`.
- `path_tree.dfy`: the `Node` tree as an arena (`seq<Node>` with parent and
  child indices, node 0 the synthetic `ROOT`), and the class
  `RemoteZipModel`. Each of its methods is proved equal to a function:
  `AddChild` to `WithChild`, `FindChild` to `Lookup`, `AddInfo` to
  `Inserted`, `GetPathParts` to `PathPartsAsWritten`, and the constructor,
  which runs the build loop, to `Built`. The lemmas say what the built
  tree holds.
- `path_parts_finding.dfy`: the concrete listing that shows the
  `get_path_parts` defect (see Findings).
- `traversal.dfy`: `collect_files` as a preorder walk, specified by
  reachability.
- `extraction.dfy`: `ExtractWorker` as a class with `cancel` and `run`. The
  local disk is a class holding a map from path to bytes. Every step is
  proved equal to a replay of a plan of actions. The plan is cut short at
  the cancellation point, which is given as an oracle counting checkpoints.
- `extraction_facts.dfy`: what a run achieves. Completed files hold their
  entry's bytes. Other files are untouched. Bytes copied equal the declared
  total. Progress rises, and `finished` comes last.
- `bare_archive.dfy`: `add_node` and the export loop, writing to a zip
  writer modelled as a list of members.
- `temp_name.dfy`: `os.path.splitext`, `str(int)` and the unique-name loop.
- `signature.dfy`: `detect_remote_filetype`.

The model does what the code does, including where the code's choice is
not the obvious one:

- A node's kind is fixed by whichever entry creates it first. A later
  directory entry at a file's path leaves the node a file. A later file
  entry at a directory's path attaches nothing. "Directory wins" is not
  the rule.
- A file node's entry is the last entry in listing order with that path.
- `collect_files` keeps duplicates when a node is selected together with
  one of its ancestors. Nothing removes them.
- The extraction writes each file where the code does: below the
  as-written `get_path_parts`, which drops every ancestor named "ROOT".
  The path the code evidently means, with only the root node left out, is
  `IntendedTarget`, and the lemmas about completed runs hold where the two
  agree (see Findings).

## Model

| member | source | states |
|---|---|---|
| Paths.StripSpec | main.py:66 | `strip("/")` removes separators only, and only at the ends: the result is a slice that neither starts nor ends with one, and everything cut off is separators |
| Paths.Split | main.py:66 | `split("/")` returns at least one piece, and no piece holds a separator |
| Paths.JoinSplit | main.py:66 | joining the pieces of a split with "/" gives the string back |
| Paths.SplitJoin | main.py:66 | splitting a "/"-join of separator-free segments gives the segments back |
| Paths.StripIdempotent | main.py:66 | stripping twice is stripping once |
| Paths.JoinAllPlain | main.py:170 | `os.path.join(dest, *parts)` over plain segments is the destination with one separator, then the segments joined by "/" |
| Paths.JoinAllInjective | main.py:170 | different lists of plain segments join onto the same destination at different paths |
| Paths.StripJoin | main.py:464-468 | a join of plain segments, with or without a trailing "/", strips back to the join |
| PathTree.Lookup | main.py:73 | the child found has the name asked for; none is found only when no child has it |
| PathTree.RemoteZipModel.FindChild | main.py:73 | the generator scan over `current.children` returns the first child with the name, as `Lookup` specifies |
| PathTree.RemoteZipModel.AddChild | main.py:40-42 | the new node is appended under `p`, with `p` as its parent and no children and no entry |
| PathTree.RemoteZipModel.AddInfo | main.py:66-81 | one pass of the build loop turns the arena into `Inserted(old arena, entry)` |
| PathTree.RemoteZipModel.Descend | main.py:69-78 | one pass of the inner loop over the parts: it moves to the child with the next name, creating it first when missing (a directory unless it is the last part of a file entry); the walk left from there ends where the walk of the whole remaining path does |
| PathTree.RemoteZipModel.constructor | main.py:59-81 | the arena built from the listing is `Built(infos)`, the left fold of `Inserted` |
| PathTree.Built | main.py:62-81 | every built arena is well formed: root at 0, parent and child links agree, children after parents, and siblings have different names |
| PathTree.InsertedKinds | main.py:69-78 | an entry keeps every existing node's name, kind and parent, and a node exists at its path afterwards; a node it creates at its own path takes the entry's kind |
| PathTree.BuiltCovers | main.py:65-78 | for every entry of the listing, some node's path is the entry's stripped and split name |
| PathTree.BuiltEntryNode | main.py:66-78 | that node is the only one at the entry's path |
| PathTree.BuiltFileEntry | main.py:80-81 | a file node carries the last entry in listing order whose path is the node's path |
| PathTree.BuiltDirEntry | main.py:80-81 | a directory node carries no entry |
| PathTree.BuiltFilesHaveEntries | main.py:80-81 | the built tree is well formed and every file node has an entry |
| PathTree.RemoteZipModel.GetPathParts | main.py:44-52 | the loop returns the names of the node's ancestors, root first, leaving out every ancestor named "ROOT" (`PathPartsAsWritten`) |
| PathTree.PathPartsAgree | main.py:44-52 | when no archive node is named "ROOT", `get_path_parts` as written gives the node's path below the root |
| PathTree.FullPathPlain | main.py:66 | when every node below the root has a plain name (not empty, no "/", not "." or ".."), every segment of a node's path is plain |
| PathTree.FullPathInjective | main.py:44-52 | different nodes have different paths below the root |
| PathPartsFinding.RootNamedDirCollides | main.py:49-50 | the listing `ROOT/f`, `f` builds two file nodes at different paths, yet `get_path_parts` plus the name gives `[f]` for both |
| Traversal.PreorderIff | main.py:150-153 | the walk from `n` visits exactly the nodes reachable from `n` through directories |
| Traversal.PreorderDistinct | main.py:150-153 | the walk visits each node once |
| Traversal.PreorderParentFirst | main.py:150-153 | the walk visits a directory before anything inside it |
| Traversal.LeavesSpec | main.py:150-155 | `collect_files(n)` appends exactly the file nodes reachable from `n` through directories, each once |
| Traversal.CollectFiles | main.py:150-155 | the recursive method appends `Leaves(ns, n)` to the list it is given |
| Traversal.CollectAll | main.py:149-158 | the loop over the selection builds `Collected(ns, sel)`, the selections' leaves concatenated in order |
| Traversal.CollectedSpec | main.py:149-158 | a node is collected exactly when it is a file reachable from some selected node; duplicates are kept |
| Traversal.CollectedFiles | main.py:149-158 | every collected node is a file node of the tree |
| Extraction.Target | main.py:169-170 | the path `run` writes a node to is `os.path.join(dest_dir, *get_path_parts(), name)` with the as-written parts; it is the node's intended path whenever no node below the root is named "ROOT" |
| Extraction.TotalSize | main.py:161 | `total_size`, the sum of the declared sizes, is at least each file's declared size |
| Extraction.JobsChunksNonEmpty | main.py:177-183 | every chunk copied is non-empty, since the loop stops at the first empty read |
| Extraction.ReplayEntry | main.py:175-189 | after `n` chunks of an entry, the target holds their bytes, `read` and the run-wide counter have grown by their length, and one file-progress and one overall-progress signal were emitted per chunk |
| Extraction.ReplayAppend | main.py:165-189 | running two action lists one after the other is running their concatenation |
| Extraction.ExtractWorker.constructor | main.py:135-140 | a new worker keeps the selection and destination and is not cancelled |
| Extraction.ExtractWorker.Cancel | main.py:142-145 | `cancel` sets the flag and changes nothing else |
| Extraction.Disk.Create | main.py:174 | opening the target for writing leaves it empty |
| Extraction.Disk.Append | main.py:184 | a write appends the chunk to the target |
| Extraction.ExtractWorker.CopyEntry | main.py:166-189 | one entry: the disk, the signals and the counter are the replay of the entry's actions up to the first cancellation checkpoint, and the flag says whether it stopped early |
| Extraction.ExtractWorker.WriteChunk | main.py:184-188 | a non-empty chunk is appended to the target, `read` and the run-wide counter grow by its length, and one file-progress then one overall-progress signal follow: the state of the entry with one more chunk copied |
| Extraction.ExtractWorker.CopyAll | main.py:165-189 | all entries: the disk and the signals are the replay of the plan's first `Performed(...)` actions, and the worker ends cancelled exactly when cancelled before, or when the cancellation falls inside the plan |
| Extraction.ExtractWorker.Run | main.py:147-191 | `run` collects the leaves, sums their sizes and copies each to its `Target`; the disk and signals are the replay of the plan cut at the cancellation point, then exactly one `finished` is emitted, as the last signal |
| ExtractionFacts.PerformedBounds | main.py:166-180 | a run performs the whole plan unless it was cancelled before starting, or a cancellation lands before one of the plan's checkpoints |
| ExtractionFacts.ReplayPlan | main.py:165-189 | a completed plan leaves every target holding what was written to it and adds the bytes of all entries to the counter |
| ExtractionFacts.WrittenSpec | main.py:174-184 | with distinct targets, each target holds its entry's bytes, and every other path is as before |
| ExtractionFacts.TargetInjective | main.py:169-170 | with the root left out by identity (`IntendedTarget`), different nodes extract to different local paths |
| ExtractionFacts.RootNamedTargetsCollide | main.py:169-170 | for the listing `ROOT/f`, `f`, the two file nodes have different intended paths, yet `run` writes both to the same target |
| ExtractionFacts.JobsConsistent | main.py:169-170 | while no node below the root is named "ROOT", jobs for files below the root that share a target write the same bytes, since a target is shared only by repeated copies of one file |
| ExtractionFacts.CompletedJobs | main.py:165-189 | a completed plan writes every job's target with exactly its chunks and keeps every other path |
| ExtractionFacts.CompletedRun | main.py:147-191 | after an uncancelled run, every collected file's target holds exactly the bytes its entry yielded, while no node below the root is named "ROOT" |
| ExtractionFacts.CompletedRunKeepsOthers | main.py:170-174 | an uncancelled run changes no local path other than the targets |
| ExtractionFacts.BytesTotal | main.py:161 | when each entry yields its declared size, the bytes of the first `n` jobs equal the declared sizes of the first `n` files |
| ExtractionFacts.CompletedRunDownloadsTotal | main.py:161-188 | then an uncancelled run ends with `downloaded_size == total_size` |
| ExtractionFacts.WriteEventsAt | main.py:184-189 | the signals of chunk `k` are file progress with the bytes read so far, then overall progress with the run-wide bytes so far |
| ExtractionFacts.FileProgressRises | main.py:185-186 | an entry's file-progress values rise strictly, and the last one is the entry's byte count |
| ExtractionFacts.StepSignals | main.py:184-189 | one step keeps the overall progress rising, never above the bytes copied, and emits no `finished` |
| ExtractionFacts.ReplaySignals | main.py:165-189 | so does any number of steps |
| ExtractionFacts.PlanWritesNonEmpty | main.py:181-184 | no planned write is empty |
| ExtractionFacts.RunSignals | main.py:165-191 | wherever a run is cut, the overall progress so far rises strictly, never exceeds the bytes copied, and holds no `finished`, so the final `finished` is the only one |
| BareArchive.ZipWriter.WriteStr | main.py:469 | `writestr` appends one member with the given name and payload |
| BareArchive.AddNode | main.py:463-474 | `add_node(n, path)` writes the members of the preorder walk from `n`, in that order |
| BareArchive.AddChildren | main.py:471-472 | the loop over a directory's children writes, child after child, the members of each child's walk: the members of the walk below the directory, the directory itself excluded |
| BareArchive.ExportBare | main.py:462-477 | the export writes the members of the walk from the root, root excluded |
| BareArchive.ExportedIff | main.py:463-477 | a node gets a member exactly when it is below the root through directories |
| BareArchive.ExportOrder | main.py:463-477 | no node gets two members, and a directory's member precedes those of everything inside it |
| BareArchive.MemberReadBack | main.py:464-474 | every payload is empty; a member's name ends in "/" exactly when its node is a directory; with plain names, stripping and splitting the name gives the node's path back, as the tree builder reads it |
| BareArchive.MemberNamesDistinct | main.py:464-474 | with plain names, different nodes give members with different names |
| TempName.LastIndexOf | main.py:316 | `rfind`: the index found holds the character and none comes after it; -1 means it does not occur |
| TempName.SplitExt | main.py:316 | `os.path.splitext` splits the path into a root and an extension that concatenate back to it; a non-empty extension is a dot, then neither a separator nor another dot, after a file name that is not all dots |
| TempName.SplitExtFinds | main.py:316 | conversely, whenever a path ends in such an extension, `splitext` splits it there |
| TempName.Decimal | main.py:319 | `str(count)` is non-empty decimal digits, without a leading zero for a positive count |
| TempName.DecimalRoundTrip | main.py:319 | reading `str(k)` back gives `k` |
| TempName.CandidateKeepsExtension | main.py:316-319 | every numbered candidate splits into the original root plus `_k`, and the original extension: suffixes never compound |
| TempName.AttemptsDistinct | main.py:315-320 | no two attempts of the loop name the same path |
| TempName.AttemptsTaken | main.py:317-320 | when the first `n` attempts all exist, at least `n` paths exist |
| TempName.UniqueTempPath | main.py:313-320 | the loop ends on a path that does not exist, namely the first free attempt, so the file's own name is kept exactly when it is free |
| Signature.Classify | main.py:14-28 | "error" exactly when the request raises, and "zip" only for a body of at least four bytes starting with "PK" |
| Signature.ReadSig | main.py:19 | `read(8)` gives a prefix of the body, eight bytes long when the body has eight |
| Signature.SigPrefix | main.py:19-26 | a magic number of at most eight bytes starts the bytes read exactly when it starts the body |
| Signature.ClassifySpec | main.py:14-28 | "error" exactly when the request raises; "zip" exactly when the body starts with one of the three zip signatures; "7z" exactly when it starts with the 7z signature |
| Signature.ClassifyFirstSix | main.py:20-26 | bodies that agree on their first six bytes get the same answer |

## Left out

- The Qt item-model methods (`rowCount`, `columnCount`, `data`, `index`,
  `parent`, `get_node`) and `CustomTree`: they are view plumbing, not logic.
- The GUI in `main()` is left out: widgets, dialogs, toolbar, About box and
  button wiring. So are the thread start-up and signal wiring. A
  cancellation from another thread is the oracle `cancelAt`, which names
  the checkpoint the cancel lands before.
- Network and archive I/O is replaced by values:
  - The ranged request in `detect_remote_filetype` is an
    `Option<seq<byte>>`, with `None` for any exception.
  - `rz.infolist()` is a sequence of `ZipInfo`.
  - `rz.open(info)` is a `Reader`, a function from an entry to the chunks
    its successive reads return.
  - `tempfile.gettempdir()` is a parameter.
  - `os.path.exists` is a fixed set of existing paths, so a file created by
    someone else during the loop is not modelled.
- zip compression and the archive's byte format are not modelled. The zip
  writer is the list of (name, payload) members written.
- `os.makedirs` is left out. The local disk is a map from file path to
  contents, so directories are implicit.
- The download and the launch of the double-clicked file are left out.
  The model covers only the choice of its path.
- The progress-bar percentage (`int(cur * 100 / total)`) uses float
  division and is left out.
- Exception paths are left out: a failing `rz.open`, read or write ends
  `run` without `finished`.
- Extraction.ExtractWorker.Run computes every file's target path and chunk
  list before copying, where the source computes them entry by entry. Both
  are pure in the model, so the actions performed are the same.
- Extraction.ExtractWorker.Run requires `ReaderOk`: a reader's chunk list
  holds the non-empty reads before the first empty one, at most 64 KiB
  each. This is how the reader is represented, not a demand on the
  archive.
- Children of file nodes: entries `a` and `a/b` make `b` a child of the
  file `a`. Neither `collect_files` nor `add_node` descends into a file
  node, so the export never writes such a node, and selecting `a` alone
  extracts `a` only. The view still lists `b` under `a`, so `b` can be
  selected itself, and then it is extracted. The model has the same
  behaviour, and the reachability lemmas say so ("reachable through
  directories").
- ExtractionFacts.CompletedRun and ExtractionFacts.CompletedRunKeepsOthers
  do not capture a clash between a file and a path below it. When both the
  file `a` and its child `b` are selected, the targets are `dest/a` and
  `dest/a/b`. The code then raises in `os.makedirs` or `open`, because
  `dest/a` is a file, and never emits `finished`. The disk in the model is
  a map with a key per path string, so the model's run writes both keys
  and completes.
- ExtractionFacts.CompletedRun, ExtractionFacts.TargetInjective,
  ExtractionFacts.JobsConsistent and ExtractionFacts.CompletedRunKeepsOthers
  assume that every name in the tree is plain: not empty, without "/", and
  not "." or "..". A name like `a//b` produces an empty segment, and
  `os.path.join` then gives two nodes the same local path. A listing such
  as `a/../b`, `b` gives two different path strings that name one file, so
  the later copy overwrites the earlier one. Without this assumption these
  lemmas do not hold.
- ExtractionFacts.CompletedRun, ExtractionFacts.JobsConsistent and
  ExtractionFacts.CompletedRunKeepsOthers also assume that no node below
  the root is named "ROOT". With one, the as-written target drops that
  directory and two files can share a target (see Findings).
- ExtractionFacts.CompletedRun, ExtractionFacts.TargetInjective,
  ExtractionFacts.JobsConsistent and ExtractionFacts.CompletedRunKeepsOthers
  speak of path strings: the disk is a map keyed by the strings `run`
  builds, not by resolved files. Path normalisation, symbolic links, case
  folding on case-insensitive file systems and Windows path joining are not
  modelled; only POSIX `os.path.join` is. An entry with ".." segments, such
  as `../../x`, makes the code write outside the destination directory;
  the plain-name assumption excludes it, and the model does not capture
  where such a file lands.
- BareArchive.MemberReadBack and BareArchive.MemberNamesDistinct assume
  plain names too, but of that assumption they use only that no name is
  empty or holds "/": an empty segment, or a name with "/" in it, joins
  into a member name that reads back differently. They do not need the
  exclusion of "." and "..".
- ExtractionFacts.CompletedRunDownloadsTotal assumes each entry yields
  exactly its declared size. A truncated entry ends below the total.

## Findings

| source | as written | input that shows it | evidently intended | confidence | as-written member | corrected member |
|---|---|---|---|---|---|---|
| main.py:49-50 | `get_path_parts` skips every ancestor whose name is "ROOT", not only the synthetic root node | listing `ROOT/f`, `f`: both files extract to `dest/f`, so the second overwrites the first | leave out only the root node itself, by identity | high, not executed | ExtractionFacts.RootNamedTargetsCollide | ExtractionFacts.TargetInjective |
