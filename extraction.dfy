/** `ExtractWorker`: copies the files below the selected nodes into a
    destination directory, chunk by chunk, reporting progress, and stops
    early once `cancel()` has been called.

    The archive reader, the file system and the thread that calls `cancel`
    are abstracted:
    - the reader is a function giving, for each entry, the successive
      non-empty chunks that `read(64 * 1024)` returns before the first
      empty read;
    - the file system is a `Disk` object holding a map from path to bytes;
    - the other thread is an oracle `cancelAt`: its `cancel()` takes effect
      just before checkpoint number `cancelAt` of the run, where the
      checkpoints are the places the worker tests its `_cancelled` flag.

    The run is specified by a plan: the list of actions a run that is never
    cancelled performs, each preceded by exactly one checkpoint. A run
    performs a prefix of the plan and then emits `finished`. */
module Extraction {
  import opened Common
  import opened Paths
  import opened PathTree
  import opened Traversal

  /** The size of each `read` request: 64 KiB. */
  const ChunkSize: nat := 64 * 1024

  /** What `rz.open(info)` yields: the chunks of successive reads. */
  type Reader = ZipInfo -> seq<seq<byte>>

  /** A reader honours `read(ChunkSize)`: every chunk before the end of the
      entry is non-empty and at most ChunkSize long. */
  ghost predicate ReaderOk(reader: Reader)
  {
    forall info: ZipInfo, k :: 0 <= k < |reader(info)| ==> 0 < |reader(info)[k]| <= ChunkSize
  }

  /** A reader that delivers exactly the declared size of every entry. */
  ghost predicate ReaderExact(reader: Reader)
  {
    forall info: ZipInfo :: |Flatten(reader(info))| == info.fileSize
  }

  /** The signals the worker emits. */
  datatype Event =
    | FileProgress(name: string, current: nat, total: nat)
    | OverallProgress(current: nat, total: nat)
    | Finished

  /** One step of the copy: open (and truncate) the target of an entry,
      write one chunk to it, or find the entry exhausted. */
  datatype Action =
    | Open(target: string)
    | Write(target: string, name: string, size: nat, data: seq<byte>)
    | EndOfEntry

  /** The observable state of a run: the file system, the signals emitted,
      the bytes read of the current entry and the bytes copied in all. */
  datatype Progress = Progress(fs: map<string, seq<byte>>, events: seq<Event>, read: nat, downloaded: nat)

  /** The state before the first action, given the files and the signals
      emitted so far. */
  function Start(fs: map<string, seq<byte>>, events: seq<Event>): Progress
  {
    Progress(fs, events, 0, 0)
  }

  /** The bytes at `path`, or none when there is no such file. */
  function Content(fs: map<string, seq<byte>>, path: string): seq<byte>
  {
    if path in fs then fs[path] else []
  }

  /** The effect of one action; `total` is the `total_size` the overall
      progress reports against. */
  function Step(total: nat, st: Progress, a: Action): Progress
  {
    match a
    case Open(t) => st.(fs := st.fs[t := []], read := 0)
    case Write(t, name, size, data) =>
      var read := st.read + |data|;
      var down := st.downloaded + |data|;
      Progress(st.fs[t := Content(st.fs, t) + data],
               st.events + [FileProgress(name, read, size)] + [OverallProgress(down, total)],
               read, down)
    case EndOfEntry => st
  }

  /** The state after performing `acts` in order from `st`. */
  function Replay(total: nat, st: Progress, acts: seq<Action>): Progress
  {
    if acts == [] then st else Step(total, Replay(total, st, acts[..|acts| - 1]), acts[|acts| - 1])
  }

  /** Where `run` writes node `n`: `os.path.join(dest_dir, *rel_parts)`
      with `rel_parts` the as-written `get_path_parts()` followed by the
      node's name. While no archive node is named "ROOT" this is the
      node's real path below the destination. */
  function Target(ns: seq<Node>, dest: string, n: nat): (r: string)
    requires WellFormed(ns) && n < |ns|
    ensures NoRootNamed(ns) ==> r == IntendedTarget(ns, dest, n)
  {
    PathPartsAgreeWhen(ns, n);
    JoinAll(dest, PathPartsAsWritten(ns, n) + [ns[n].name])
  }

  /** Where node `n` evidently belongs: its path below the root, the root
      node left out by identity rather than by name. */
  function IntendedTarget(ns: seq<Node>, dest: string, n: nat): string
    requires WellFormed(ns) && n < |ns|
  {
    JoinAll(dest, PathOf(ns, n) + [ns[n].name])
  }

  /** The chunks the reader delivers for a node's entry. */
  function Chunks(ns: seq<Node>, reader: Reader, n: nat): seq<seq<byte>>
    requires n < |ns|
  {
    match ns[n].zipinfo
    case Some(info) => reader(info)
    case None => []
  }

  /** A node's declared size, `node.zipinfo.file_size`. */
  function Size(ns: seq<Node>, n: nat): nat
    requires n < |ns|
  {
    match ns[n].zipinfo
    case Some(info) => info.fileSize
    case None => 0
  }

  /** `sum(n.zipinfo.file_size for n in files)`. */
  function TotalSize(ns: seq<Node>, files: seq<nat>): (r: nat)
    requires forall k :: 0 <= k < |files| ==> files[k] < |ns|
    ensures forall k :: 0 <= k < |files| ==> Size(ns, files[k]) <= r
  {
    if files == [] then 0
    else
      var init := files[..|files| - 1];
      assert forall k :: 0 <= k < |init| ==> init[k] == files[k];
      TotalSize(ns, init) + Size(ns, files[|files| - 1])
  }

  /** What the worker needs to copy one node: the target path, the name
      and declared size it reports, and the chunks the reader delivers. */
  datatype Job = Job(target: string, name: string, size: nat, chunks: seq<seq<byte>>)

  /** The job for node `n`. */
  function JobOf(ns: seq<Node>, dest: string, reader: Reader, n: nat): Job
    requires WellFormed(ns) && n < |ns|
  {
    Job(Target(ns, dest, n), ns[n].name, Size(ns, n), Chunks(ns, reader, n))
  }

  /** The jobs for `files`, in order. */
  function Jobs(ns: seq<Node>, dest: string, reader: Reader, files: seq<nat>): (r: seq<Job>)
    requires WellFormed(ns)
    requires forall k :: 0 <= k < |files| ==> files[k] < |ns|
    ensures |r| == |files|
  {
    seq(|files|, k requires 0 <= k < |files| => JobOf(ns, dest, reader, files[k]))
  }

  /** Every chunk of a job holds at least one byte. */
  predicate ChunksNonEmpty(j: Job)
  {
    forall k :: 0 <= k < |j.chunks| ==> j.chunks[k] != []
  }

  /** A reader that honours `read(ChunkSize)` never hands a job an empty
      chunk. */
  lemma JobsChunksNonEmpty(ns: seq<Node>, dest: string, reader: Reader, files: seq<nat>)
    requires WellFormed(ns) && ReaderOk(reader)
    requires forall k :: 0 <= k < |files| ==> files[k] < |ns|
    ensures var jobs := Jobs(ns, dest, reader, files);
            forall i :: 0 <= i < |jobs| ==> ChunksNonEmpty(jobs[i])
  {
    var jobs := Jobs(ns, dest, reader, files);
    forall i | 0 <= i < |jobs|
      ensures ChunksNonEmpty(jobs[i])
    {
      assert jobs[i].chunks == Chunks(ns, reader, files[i]);
    }
  }

  /** One write per chunk, in order. */
  function Writes(j: Job): seq<Action>
  {
    seq(|j.chunks|, k requires 0 <= k < |j.chunks| => Write(j.target, j.name, j.size, j.chunks[k]))
  }

  /** The copy of one entry: open the target, write each chunk, then the
      empty read that ends the entry. */
  function EntryActions(j: Job): seq<Action>
  {
    [Open(j.target)] + Writes(j) + [EndOfEntry]
  }

  /** The copies of all jobs, one after the other. */
  function Plan(jobs: seq<Job>): seq<Action>
  {
    if jobs == [] then [] else Plan(jobs[..|jobs| - 1]) + EntryActions(jobs[|jobs| - 1])
  }

  /** How many actions of a plan of length `n` a run performs: none when
      the flag was already set, those before the checkpoint at which the
      cancellation lands, or all of them. */
  function Performed(n: nat, wasCancelled: bool, cancelAt: Option<nat>): (r: nat)
  {
    if wasCancelled then 0
    else if cancelAt.Some? && cancelAt.value < n then cancelAt.value
    else n
  }

  /** The checkpoint numbers of a run, counted from checkpoint `tick`. */
  function Shift(cancelAt: Option<nat>, tick: nat): (r: Option<nat>)
  {
    if cancelAt.Some? && tick <= cancelAt.value then Some(cancelAt.value - tick) else None
  }

  // ---------------------------------------------------------------------
  // Facts the worker's proof uses

  /** One more action of a plan is one more step. */
  lemma ReplayNext(total: nat, st: Progress, plan: seq<Action>, t: nat)
    requires t < |plan|
    ensures Replay(total, st, plan[..t + 1]) == Step(total, Replay(total, st, plan[..t]), plan[t])
  {
    assert plan[..t + 1][..t] == plan[..t];
  }

  /** The plan of one more job is the old plan followed by that job's
      copy. */
  lemma PlanNext(jobs: seq<Job>, i: nat)
    requires i < |jobs|
    ensures Plan(jobs[..i + 1]) == Plan(jobs[..i]) + EntryActions(jobs[i])
  {
    assert jobs[..i + 1][..i] == jobs[..i];
  }

  /** The plan of a prefix of the jobs is a prefix of the plan. */
  lemma {:induction false} PlanPrefix(jobs: seq<Job>, i: nat)
    requires i <= |jobs|
    ensures |Plan(jobs[..i])| <= |Plan(jobs)| && Plan(jobs)[..|Plan(jobs[..i])|] == Plan(jobs[..i])
    decreases |jobs| - i
  {
    if i < |jobs| {
      PlanPrefix(jobs, i + 1);
      PlanNext(jobs, i);
      var p := Plan(jobs[..i]);
      var q := Plan(jobs[..i + 1]);
      var plan := Plan(jobs);
      assert plan[..|p|] == plan[..|q|][..|p|] == q[..|p|] == p;
    } else {
      assert jobs[..i] == jobs;
    }
  }

  /** The copy of job `i` sits in the plan right after the copies of the
      jobs before it. */
  lemma PlanEntry(jobs: seq<Job>, i: nat)
    requires i < |jobs|
    ensures var p := Plan(jobs[..i]);
            var e := EntryActions(jobs[i]);
            |p| + |e| <= |Plan(jobs)| && Plan(jobs)[..|p| + |e|] == p + e
  {
    PlanNext(jobs, i);
    PlanPrefix(jobs, i + 1);
  }

  /** The copies of the jobs up to `i` fit in the plan. */
  lemma PlanLength(jobs: seq<Job>, i: nat)
    requires i < |jobs|
    ensures |Plan(jobs[..i])| + |EntryActions(jobs[i])| <= |Plan(jobs)|
  {
    PlanEntry(jobs, i);
  }

  /** The plan cut `c` actions into the copy of job `i` is the copies of
      the jobs before it followed by the first `c` actions of its copy. */
  lemma PlanCut(jobs: seq<Job>, i: nat, c: nat)
    requires i < |jobs| && c <= |EntryActions(jobs[i])|
    ensures |Plan(jobs[..i])| + |EntryActions(jobs[i])| <= |Plan(jobs)|
    ensures Plan(jobs)[..|Plan(jobs[..i])| + c] == Plan(jobs[..i]) + EntryActions(jobs[i])[..c]
  {
    PlanEntry(jobs, i);
    var p := Plan(jobs[..i]);
    var e := EntryActions(jobs[i]);
    assert Plan(jobs)[..|p| + c] == Plan(jobs)[..|p| + |e|][..|p| + c];
  }

  /** How the count of performed actions of a run splits at an entry whose
      `e` actions start at checkpoint `tick`: when the entry is cut short,
      the run stops there; otherwise the cancellation, if any, lands after
      the entry. */
  lemma PerformedEntry(n: nat, e: nat, tick: nat, was: bool, cancelAt: Option<nat>)
    requires 0 < e && tick + e <= n
    requires was ==> tick == 0
    requires cancelAt.None? || tick <= cancelAt.value
    ensures var cut := Performed(e, was, Shift(cancelAt, tick));
            if cut < e then
              Performed(n, was, cancelAt) == tick + cut && (was || (cancelAt.Some? && cancelAt.value < n))
            else
              !was && (cancelAt.None? || tick + e <= cancelAt.value)
  {
  }

  /** Action `k` of the copy of one entry. */
  lemma EntryAt(j: Job, k: nat)
    requires k < |j.chunks| + 2
    ensures |EntryActions(j)| == |j.chunks| + 2
    ensures EntryActions(j)[k]
            == if k == 0 then Open(j.target)
               else if k <= |j.chunks| then Write(j.target, j.name, j.size, j.chunks[k - 1])
               else EndOfEntry
  {
  }

  /** The signals of the first `n` writes of an entry, when `down` bytes
      had been copied in all before the entry: after each chunk, the bytes
      read of the entry so far, then the bytes copied in all so far. */
  function WriteEvents(j: Job, total: nat, down: nat, n: nat): seq<Event>
    requires n <= |j.chunks|
  {
    if n == 0 then []
    else
      var read := |Flatten(j.chunks[..n])|;
      WriteEvents(j, total, down, n - 1) + [FileProgress(j.name, read, j.size)] + [OverallProgress(down + read, total)]
  }

  /** The state once an entry's target is open and its first `n` chunks
      are written: the target holds those chunks, the signals of the writes
      follow the earlier ones and the counters have grown by the bytes
      written. */
  function Copying(total: nat, st0: Progress, j: Job, n: nat): Progress
    requires n <= |j.chunks|
  {
    var data := Flatten(j.chunks[..n]);
    Progress(st0.fs[j.target := data], st0.events + WriteEvents(j, total, st0.downloaded, n),
             |data|, st0.downloaded + |data|)
  }

  /** Writing chunk `n` of an entry after its first `n` chunks leads to
      `Copying(.., n + 1)`. */
  lemma StepCopying(total: nat, st0: Progress, j: Job, n: nat)
    requires n < |j.chunks|
    ensures Step(total, Copying(total, st0, j, n), Write(j.target, j.name, j.size, j.chunks[n]))
            == Copying(total, st0, j, n + 1)
  {
    FlattenNext(j.chunks, n);
    var prev := Copying(total, st0, j, n);
    var data := j.chunks[n];
    assert Content(prev.fs, j.target) == Flatten(j.chunks[..n]);
    assert Copying(total, st0, j, n + 1).events
           == prev.events + [FileProgress(j.name, prev.read + |data|, j.size)]
              + [OverallProgress(prev.downloaded + |data|, total)];
  }

  /** Opening an entry's target and writing its first `n` chunks leads to
      `Copying(.., n)`. */
  lemma {:induction false} ReplayEntry(total: nat, st0: Progress, j: Job, n: nat)
    requires n <= |j.chunks|
    ensures Replay(total, st0, EntryActions(j)[..n + 1]) == Copying(total, st0, j, n)
    decreases n
  {
    EntryAt(j, n);
    ReplayNext(total, st0, EntryActions(j), n);
    if n == 0 {
      assert EntryActions(j)[..0] == [];
      assert j.chunks[..0] == [];
    } else {
      ReplayEntry(total, st0, j, n - 1);
      StepCopying(total, st0, j, n - 1);
    }
  }

  /** The whole copy of an entry leaves it as `Copying` with all its
      chunks: the empty read at the end changes nothing. */
  lemma ReplayEntryAll(total: nat, st0: Progress, j: Job)
    ensures Replay(total, st0, EntryActions(j)) == Copying(total, st0, j, |j.chunks|)
  {
    var n := |j.chunks|;
    ReplayEntry(total, st0, j, n);
    EntryAt(j, n + 1);
    ReplayNext(total, st0, EntryActions(j), n + 1);
    assert EntryActions(j)[..n + 2] == EntryActions(j);
  }

  /** Performing `a` and then `b` is performing `a + b`. */
  lemma {:induction false} ReplayAppend(total: nat, st: Progress, a: seq<Action>, b: seq<Action>)
    ensures Replay(total, st, a + b) == Replay(total, Replay(total, st, a), b)
    decreases |b|
  {
    if b == [] {
      assert a + b == a;
    } else {
      var b' := b[..|b| - 1];
      assert (a + b)[..|a + b| - 1] == a + b';
      ReplayAppend(total, st, a, b');
    }
  }

  /** A copy of job `i` that was cut short, having started at checkpoint
      `tick` once the jobs before it were copied: the run has performed
      exactly the first `Performed(...)` actions of the whole plan, and it
      was cancelled before the plan's end. */
  lemma AfterEntryCut(jobs: seq<Job>, i: nat, total: nat, start: Progress, tick: nat, was: bool, cancelAt: Option<nat>)
    requires i < |jobs| && tick == |Plan(jobs[..i])|
    requires was ==> tick == 0
    requires cancelAt.None? || tick <= cancelAt.value
    requires Performed(|EntryActions(jobs[i])|, was, Shift(cancelAt, tick)) < |EntryActions(jobs[i])|
    ensures var acts := EntryActions(jobs[i]);
            var plan := Plan(jobs);
            Replay(total, Replay(total, start, Plan(jobs[..i])), acts[..Performed(|acts|, was, Shift(cancelAt, tick))])
            == Replay(total, start, plan[..Performed(|plan|, was, cancelAt)])
    ensures was || (cancelAt.Some? && cancelAt.value < |Plan(jobs)|)
  {
    var acts := EntryActions(jobs[i]);
    var plan := Plan(jobs);
    var cut := Performed(|acts|, was, Shift(cancelAt, tick));
    PlanLength(jobs, i);
    PerformedEntry(|plan|, |acts|, tick, was, cancelAt);
    assert tick + cut == Performed(|plan|, was, cancelAt);
    EntryCut(jobs, i, total, start, cut);
  }

  /** A copy of job `i` that ran to its end, having started at checkpoint
      `tick` once the jobs before it were copied: the run has performed the
      plan of the jobs up to and including `i`, and the cancellation, if
      any, lands after it. */
  lemma AfterEntryWhole(jobs: seq<Job>, i: nat, total: nat, start: Progress, tick: nat, was: bool, cancelAt: Option<nat>)
    requires i < |jobs| && tick == |Plan(jobs[..i])|
    requires was ==> tick == 0
    requires cancelAt.None? || tick <= cancelAt.value
    requires Performed(|EntryActions(jobs[i])|, was, Shift(cancelAt, tick)) == |EntryActions(jobs[i])|
    ensures var acts := EntryActions(jobs[i]);
            && !was
            && Replay(total, Replay(total, start, Plan(jobs[..i])), acts[..|acts|])
               == Replay(total, start, Plan(jobs[..i + 1]))
            && tick + |acts| == |Plan(jobs[..i + 1])|
            && (cancelAt.None? || |Plan(jobs[..i + 1])| <= cancelAt.value)
  {
    PlanLength(jobs, i);
    PerformedEntry(|Plan(jobs)|, |EntryActions(jobs[i])|, tick, was, cancelAt);
    EntryWhole(jobs, i, total, start);
  }

  /** Performing the copies of the jobs before `i` and then the first `c`
      actions of the copy of job `i` is performing that prefix of the
      plan. */
  lemma EntryCut(jobs: seq<Job>, i: nat, total: nat, start: Progress, c: nat)
    requires i < |jobs| && c <= |EntryActions(jobs[i])|
    ensures |Plan(jobs[..i])| + c <= |Plan(jobs)|
    ensures Replay(total, Replay(total, start, Plan(jobs[..i])), EntryActions(jobs[i])[..c])
            == Replay(total, start, Plan(jobs)[..|Plan(jobs[..i])| + c])
  {
    PlanCut(jobs, i, c);
    ReplayAppend(total, start, Plan(jobs[..i]), EntryActions(jobs[i])[..c]);
  }

  /** Performing the copies of the jobs before `i` and then the whole copy
      of job `i` is performing the copies of the jobs up to `i`. */
  lemma EntryWhole(jobs: seq<Job>, i: nat, total: nat, start: Progress)
    requires i < |jobs|
    ensures var acts := EntryActions(jobs[i]);
            && |Plan(jobs[..i])| + |acts| == |Plan(jobs[..i + 1])|
            && Replay(total, Replay(total, start, Plan(jobs[..i])), acts[..|acts|])
               == Replay(total, start, Plan(jobs[..i + 1]))
  {
    var acts := EntryActions(jobs[i]);
    assert acts[..|acts|] == acts;
    PlanNext(jobs, i);
    ReplayAppend(total, start, Plan(jobs[..i]), acts);
  }

  /** The file system, from a worker's point of view. */
  class Disk {
    var files: map<string, seq<byte>>

    constructor (files: map<string, seq<byte>>)
      ensures this.files == files
    {
      this.files := files;
    }

    /** `open(path, "wb")`: the file exists and is empty. */
    method Create(path: string)
      modifies this
      ensures files == old(files)[path := []]
    {
      files := files[path := []];
    }

    /** `dst.write(data)` on a file opened at `path`. */
    method Append(path: string, data: seq<byte>)
      modifies this
      ensures files == old(files)[path := Content(old(files), path) + data]
    {
      files := files[path := Content(files, path) + data];
    }
  }

  /** `ExtractWorker`: the tree the selected nodes belong to, the selection,
      the destination, the cancellation flag and the signals emitted. */
  class ExtractWorker {
    const tree: seq<Node>
    var nodes: seq<nat>
    var destDir: string
    var cancelled: bool
    var events: seq<Event>

    /** `ExtractWorker(zip_url, nodes, dest_dir)`. */
    constructor (tree: seq<Node>, nodes: seq<nat>, destDir: string)
      ensures this.tree == tree && this.nodes == nodes && this.destDir == destDir
      ensures !cancelled && events == []
    {
      this.tree := tree;
      this.nodes := nodes;
      this.destDir := destDir;
      cancelled := false;
      events := [];
    }

    /** `cancel()`: sets the flag and nothing else (its two other
        assignments store each field back into itself), so calling it
        again changes nothing. */
    method Cancel()
      modifies this
      ensures cancelled
      ensures nodes == old(nodes) && destDir == old(destDir) && events == old(events)
    {
      cancelled := true;
      nodes := nodes;
      destDir := destDir;
    }

    /** The body of the loop over `files_to_extract` for one entry: the
        checkpoint before the entry, the truncating open of the target,
        then a checkpoint and a read before each chunk and before the
        empty read that ends the entry. The worker performs the entry's
        actions up to the checkpoint at which the cancellation lands
        (`tick0` is the number of the first checkpoint), or all of them;
        a cancelled caller emits `finished` and returns. */
    method CopyEntry(job: Job, total: nat, disk: Disk, cancelAt: Option<nat>, tick0: nat,
                     downloaded0: nat, ghost st0: Progress)
      returns (downloaded: nat)
      requires ChunksNonEmpty(job)
      requires disk.files == st0.fs && events == st0.events && downloaded0 == st0.downloaded
      requires cancelAt.None? || tick0 <= cancelAt.value
      modifies this, disk
      ensures nodes == old(nodes) && destDir == old(destDir)
      ensures var acts := EntryActions(job);
              var cut := Performed(|acts|, old(cancelled), Shift(cancelAt, tick0));
              var st := Replay(total, st0, acts[..cut]);
              && disk.files == st.fs && events == st.events && downloaded == st.downloaded
              && cancelled == (cut < |acts|)
    {
      ghost var acts := EntryActions(job);
      var tick := tick0;
      downloaded := downloaded0;
      EntryAt(job, 0);
      assert acts[..0] == [];
      // checkpoint before the entry
      if cancelAt == Some(tick) {
        Cancel();
      }
      if cancelled {
        return;
      }
      disk.Create(job.target);
      var read := 0;
      tick := tick + 1;
      var j := 0;
      ReplayEntry(total, st0, job, 0);
      ghost var cur := Copying(total, st0, job, 0);
      while true
        invariant nodes == old(nodes) && destDir == old(destDir) && !cancelled && !old(cancelled)
        invariant j <= |job.chunks| && tick == tick0 + 1 + j
        invariant cancelAt.None? || tick <= cancelAt.value
        invariant cur == Copying(total, st0, job, j)
        invariant disk.files == cur.fs && events == cur.events
        invariant read == cur.read && downloaded == cur.downloaded
        decreases |job.chunks| - j
      {
        // checkpoint before each read
        if cancelAt == Some(tick) {
          Cancel();
        }
        if cancelled {
          ReplayEntry(total, st0, job, j);
          return;
        }
        var buf := if j < |job.chunks| then job.chunks[j] else [];
        if buf == [] {
          tick := tick + 1;
          break;
        }
        read, downloaded := WriteChunk(job, total, disk, j, read, downloaded, st0);
        cur := Copying(total, st0, job, j + 1);
        tick := tick + 1;
        j := j + 1;
      }
      ReplayEntryAll(total, st0, job);
      assert acts[..|acts|] == acts;
    }

    /** One pass of the copy loop that got a non-empty chunk: `dst.write`,
        then the two progress signals. */
    method WriteChunk(job: Job, total: nat, disk: Disk, j: nat, read0: nat, downloaded0: nat, ghost st0: Progress)
      returns (read: nat, downloaded: nat)
      requires j < |job.chunks|
      requires var cur := Copying(total, st0, job, j);
               disk.files == cur.fs && events == cur.events && read0 == cur.read && downloaded0 == cur.downloaded
      modifies this, disk
      ensures nodes == old(nodes) && destDir == old(destDir) && cancelled == old(cancelled)
      ensures var next := Copying(total, st0, job, j + 1);
              disk.files == next.fs && events == next.events && read == next.read && downloaded == next.downloaded
    {
      var buf := job.chunks[j];
      disk.Append(job.target, buf);
      read := read0 + |buf|;
      events := events + [FileProgress(job.name, read, job.size)];
      downloaded := downloaded0 + |buf|;
      events := events + [OverallProgress(downloaded, total)];
      StepCopying(total, st0, job, j);
    }

    /** The loop `for node in files_to_extract` of `run()`, over the jobs
        of the files in order, from checkpoint 0: the worker performs the
        first `Performed(...)` actions of the plan of the jobs. */
    method CopyAll(jobs: seq<Job>, total: nat, disk: Disk, cancelAt: Option<nat>)
      requires forall i :: 0 <= i < |jobs| ==> ChunksNonEmpty(jobs[i])
      modifies this, disk
      ensures nodes == old(nodes) && destDir == old(destDir)
      ensures var plan := Plan(jobs);
              var st := Replay(total, Start(old(disk.files), old(events)), plan[..Performed(|plan|, old(cancelled), cancelAt)]);
              && disk.files == st.fs
              && events == st.events
              && cancelled == (old(cancelled) || (cancelAt.Some? && cancelAt.value < |plan|))
    {
      ghost var plan := Plan(jobs);
      ghost var start := Start(disk.files, events);
      var downloaded := 0;
      var tick := 0;
      ghost var st := start;
      assert jobs[..0] == [];
      for i := 0 to |jobs|
        invariant nodes == old(nodes) && destDir == old(destDir)
        invariant cancelled == old(cancelled) && (cancelled ==> i == 0 && tick == 0)
        invariant tick == |Plan(jobs[..i])|
        invariant cancelAt.None? || tick <= cancelAt.value
        invariant st == Replay(total, start, Plan(jobs[..i]))
        invariant disk.files == st.fs && events == st.events && downloaded == st.downloaded
      {
        var job := jobs[i];
        ghost var was := cancelled;
        downloaded := CopyEntry(job, total, disk, cancelAt, tick, downloaded, st);
        if cancelled {
          AfterEntryCut(jobs, i, total, start, tick, was, cancelAt);
          return;
        }
        AfterEntryWhole(jobs, i, total, start, tick, was, cancelAt);
        tick := tick + |job.chunks| + 2;
        st := Replay(total, start, Plan(jobs[..i + 1]));
      }
      assert jobs[..|jobs|] == jobs;
      assert plan[..|plan|] == plan;
    }

    /** `run()`: gathers the files below the selection, totals their sizes
        and copies them; `cancelAt` says at which checkpoint, if any, the
        other thread's `cancel()` lands. The run performs exactly the first
        `Performed(...)` actions of the plan, and then emits `finished`
        once, whether it stopped early or not. */
    method Run(reader: Reader, disk: Disk, cancelAt: Option<nat>)
      requires WellFormed(tree) && FilesHaveEntries(tree) && ReaderOk(reader)
      requires forall k :: 0 <= k < |nodes| ==> nodes[k] < |tree|
      modifies this, disk
      ensures nodes == old(nodes) && destDir == old(destDir)
      ensures var files := Collected(tree, nodes);
              var plan := Plan(Jobs(tree, destDir, reader, files));
              var st := Replay(TotalSize(tree, files), Start(old(disk.files), old(events)),
                               plan[..Performed(|plan|, old(cancelled), cancelAt)]);
              && disk.files == st.fs
              && events == st.events + [Finished]
              && cancelled == (old(cancelled) || (cancelAt.Some? && cancelAt.value < |plan|))
    {
      var files := CollectAll(tree, nodes);
      var totalSize := TotalSize(tree, files);
      var jobs := Jobs(tree, destDir, reader, files);
      JobsChunksNonEmpty(tree, destDir, reader, files);
      CopyAll(jobs, totalSize, disk, cancelAt);
      events := events + [Finished];
    }
  }
}
