/** What a run of the `ExtractWorker` achieves: the files a complete run
    leaves behind, the bytes it reports as copied, and the shape of the
    signals any run, cancelled or not, emits. */
module ExtractionFacts {
  import opened Common
  import opened Paths
  import opened PathTree
  import opened Traversal
  import opened Extraction
  import opened PathPartsFinding

  // ---------------------------------------------------------------------
  // How much of the plan a run performs

  /** A run performs at most the whole plan, and stops short of it exactly
      when the plan is not empty and the flag was already set or the
      cancellation lands at one of the plan's checkpoints. */
  lemma PerformedBounds(n: nat, wasCancelled: bool, cancelAt: Option<nat>)
    ensures Performed(n, wasCancelled, cancelAt) <= n
    ensures Performed(n, wasCancelled, cancelAt) < n <==>
              n > 0 && (wasCancelled || (cancelAt.Some? && cancelAt.value < n))
  {
  }

  // ---------------------------------------------------------------------
  // The files a complete run leaves behind

  /** The files after each job in turn has written all its chunks to its
      target, replacing whatever was there. */
  function Written(fs: map<string, seq<byte>>, jobs: seq<Job>): map<string, seq<byte>>
  {
    if jobs == [] then fs
    else
      var last := jobs[|jobs| - 1];
      Written(fs, jobs[..|jobs| - 1])[last.target := Flatten(last.chunks)]
  }

  /** The bytes the jobs deliver in all. */
  function Bytes(jobs: seq<Job>): nat
  {
    if jobs == [] then 0 else Bytes(jobs[..|jobs| - 1]) + |Flatten(jobs[|jobs| - 1].chunks)|
  }

  /** The targets the jobs write to. */
  function Targets(jobs: seq<Job>): set<string>
  {
    set i | 0 <= i < |jobs| :: jobs[i].target
  }

  /** Jobs that write to the same target write the same bytes. */
  predicate Consistent(jobs: seq<Job>)
  {
    forall i, k :: 0 <= i < |jobs| && 0 <= k < |jobs| && jobs[i].target == jobs[k].target ==>
      jobs[i].chunks == jobs[k].chunks
  }

  /** Performing the whole plan writes every job and counts every byte. */
  lemma {:induction false} ReplayPlan(total: nat, start: Progress, jobs: seq<Job>)
    ensures Replay(total, start, Plan(jobs)).fs == Written(start.fs, jobs)
    ensures Replay(total, start, Plan(jobs)).downloaded == start.downloaded + Bytes(jobs)
    decreases |jobs|
  {
    if jobs != [] {
      var n := |jobs| - 1;
      var init := jobs[..n];
      ReplayPlan(total, start, init);
      PlanNext(jobs, n);
      assert jobs[..n + 1] == jobs;
      ReplayAppend(total, start, Plan(init), EntryActions(jobs[n]));
      ReplayEntryAll(total, Replay(total, start, Plan(init)), jobs[n]);
      assert jobs[n].chunks[..|jobs[n].chunks|] == jobs[n].chunks;
    }
  }

  /** When jobs agree on shared targets, every target ends up holding its
      job's bytes, and every other path keeps what it held. */
  lemma {:induction false} WrittenSpec(fs: map<string, seq<byte>>, jobs: seq<Job>)
    requires Consistent(jobs)
    ensures forall i :: 0 <= i < |jobs| ==>
              jobs[i].target in Written(fs, jobs) && Written(fs, jobs)[jobs[i].target] == Flatten(jobs[i].chunks)
    ensures forall p :: p !in Targets(jobs) ==>
              (p in Written(fs, jobs) <==> p in fs) && (p in fs ==> Written(fs, jobs)[p] == fs[p])
    decreases |jobs|
  {
    if jobs != [] {
      var n := |jobs| - 1;
      var init := jobs[..n];
      var last := jobs[n];
      assert Consistent(init) by {
        forall i, k | 0 <= i < |init| && 0 <= k < |init| && init[i].target == init[k].target
          ensures init[i].chunks == init[k].chunks
        {
          assert init[i] == jobs[i] && init[k] == jobs[k];
        }
      }
      WrittenSpec(fs, init);
      var w := Written(fs, jobs);
      forall i | 0 <= i < |jobs|
        ensures jobs[i].target in w && w[jobs[i].target] == Flatten(jobs[i].chunks)
      {
        if jobs[i].target != last.target {
          assert jobs[i] == init[i];
        }
      }
      forall p | p !in Targets(jobs)
        ensures (p in w <==> p in fs) && (p in fs ==> w[p] == fs[p])
      {
        assert p != last.target;
        forall i | 0 <= i < |init|
          ensures init[i].target != p
        {
          assert init[i] == jobs[i];
        }
      }
    }
  }

  /** With the root left out by identity, different nodes below the root
      extract to different paths. */
  lemma TargetInjective(ns: seq<Node>, dest: string, a: nat, b: nat)
    requires WellFormed(ns) && PlainNames(ns) && 0 < a < |ns| && 0 < b < |ns|
    requires IntendedTarget(ns, dest, a) == IntendedTarget(ns, dest, b)
    ensures a == b
  {
    assert IntendedTarget(ns, dest, a) == JoinAll(dest, FullPath(ns, a));
    assert IntendedTarget(ns, dest, b) == JoinAll(dest, FullPath(ns, b));
    FullPathPlain(ns, a);
    FullPathPlain(ns, b);
    JoinAllInjective(dest, FullPath(ns, a), FullPath(ns, b));
    FullPathInjective(ns, a, b);
  }

  /** The listing "ROOT/<f>", "<f>" as `run` handles it: the two file
      nodes belong at different places, yet both are written to the same
      target, so the second copy replaces the first. */
  lemma RootNamedTargetsCollide(f: string, dest: string)
    requires Plain(f) && f != RootName
    ensures var ns := Built([RootPathEntry(f), PlainEntry(f)]);
            && |ns| == 4 && !ns[2].isDir && !ns[3].isDir
            && IntendedTarget(ns, dest, 2) != IntendedTarget(ns, dest, 3)
            && Target(ns, dest, 2) == Target(ns, dest, 3)
  {
    BuiltRootThenPlain(f);
    TreeTargetsCollide(f, dest);
  }

  /** The targets of the two file nodes of the tree built from "ROOT/<f>",
      "<f>". */
  lemma TreeTargetsCollide(f: string, dest: string)
    requires Plain(f) && f != RootName
    ensures var ns := RootThenPlainTree(f);
            && WellFormed(ns) && |ns| == 4 && !ns[2].isDir && !ns[3].isDir
            && IntendedTarget(ns, dest, 2) != IntendedTarget(ns, dest, 3)
            && Target(ns, dest, 2) == Target(ns, dest, 3)
  {
    RootThenPlainPaths(f);
    var ns := RootThenPlainTree(f);
    assert IntendedTarget(ns, dest, 2) == JoinAll(dest, [RootName, f]);
    assert IntendedTarget(ns, dest, 3) == JoinAll(dest, [f]);
    NestedTargetLonger(f, dest);
  }

  /** "<dest>/ROOT/<f>" is longer than "<dest>/<f>". */
  lemma NestedTargetLonger(f: string, dest: string)
    requires Plain(f)
    ensures |JoinAll(dest, [f])| < |JoinAll(dest, [RootName, f])|
  {
    assert Plain(RootName);
    var ps := [RootName, f];
    JoinAllPlain(dest, ps);
    JoinAllPlain(dest, [f]);
    assert ps[1..] == [f];
    assert Join(ps) == RootName + [Slash] + f;
  }

  /** The jobs of files below the root agree on shared targets: a target
      is shared only by repeated copies of the same file. */
  lemma JobsConsistent(ns: seq<Node>, dest: string, reader: Reader, files: seq<nat>)
    requires WellFormed(ns) && PlainNames(ns) && NoRootNamed(ns)
    requires forall k :: 0 <= k < |files| ==> 0 < files[k] < |ns|
    ensures Consistent(Jobs(ns, dest, reader, files))
  {
    var jobs := Jobs(ns, dest, reader, files);
    forall i, k | 0 <= i < |jobs| && 0 <= k < |jobs| && jobs[i].target == jobs[k].target
      ensures jobs[i].chunks == jobs[k].chunks
    {
      assert Target(ns, dest, files[i]) == IntendedTarget(ns, dest, files[i]);
      assert Target(ns, dest, files[k]) == IntendedTarget(ns, dest, files[k]);
      TargetInjective(ns, dest, files[i], files[k]);
    }
  }

  /** Performing the whole plan of jobs that agree on shared targets
      leaves every target holding its job's bytes and every other path as
      it was. */
  lemma CompletedJobs(total: nat, start: Progress, jobs: seq<Job>)
    requires Consistent(jobs)
    ensures var fs := Replay(total, start, Plan(jobs)).fs;
            && (forall i :: 0 <= i < |jobs| ==> jobs[i].target in fs && fs[jobs[i].target] == Flatten(jobs[i].chunks))
            && (forall p :: p !in Targets(jobs) ==> (p in fs <==> p in start.fs) && (p in start.fs ==> fs[p] == start.fs[p]))
  {
    ReplayPlan(total, start, jobs);
    WrittenSpec(start.fs, jobs);
  }

  /** A run that is not cancelled leaves, for every file below the
      selection, the bytes the reader delivers for its entry at
      `os.path.join(dest_dir, *parts, name)`. */
  lemma CompletedRun(ns: seq<Node>, dest: string, reader: Reader, sel: seq<nat>,
                     fs0: map<string, seq<byte>>, events0: seq<Event>)
    requires WellFormed(ns) && PlainNames(ns) && NoRootNamed(ns)
    requires forall k :: 0 <= k < |sel| ==> sel[k] < |ns|
    ensures var files := Collected(ns, sel);
            var st := Replay(TotalSize(ns, files), Start(fs0, events0), Plan(Jobs(ns, dest, reader, files)));
            forall i :: 0 <= i < |files| ==>
              Target(ns, dest, files[i]) in st.fs
              && st.fs[Target(ns, dest, files[i])] == Flatten(Chunks(ns, reader, files[i]))
  {
    var files := Collected(ns, sel);
    CollectedFiles(ns, sel);
    var jobs := Jobs(ns, dest, reader, files);
    JobsConsistent(ns, dest, reader, files);
    var fs := Replay(TotalSize(ns, files), Start(fs0, events0), Plan(jobs)).fs;
    CompletedJobs(TotalSize(ns, files), Start(fs0, events0), jobs);
    forall i | 0 <= i < |files|
      ensures Target(ns, dest, files[i]) in fs && fs[Target(ns, dest, files[i])] == Flatten(Chunks(ns, reader, files[i]))
    {
      assert jobs[i] == JobOf(ns, dest, reader, files[i]);
    }
  }

  /** A run that is not cancelled leaves every path that is not the target
      of a file below the selection as it was. */
  lemma CompletedRunKeepsOthers(ns: seq<Node>, dest: string, reader: Reader, sel: seq<nat>,
                                fs0: map<string, seq<byte>>, events0: seq<Event>)
    requires WellFormed(ns) && PlainNames(ns) && NoRootNamed(ns)
    requires forall k :: 0 <= k < |sel| ==> sel[k] < |ns|
    ensures var files := Collected(ns, sel);
            var jobs := Jobs(ns, dest, reader, files);
            var st := Replay(TotalSize(ns, files), Start(fs0, events0), Plan(jobs));
            forall p :: p !in Targets(jobs) ==>
              (p in st.fs <==> p in fs0) && (p in fs0 ==> st.fs[p] == fs0[p])
  {
    var files := Collected(ns, sel);
    CollectedFiles(ns, sel);
    var jobs := Jobs(ns, dest, reader, files);
    JobsConsistent(ns, dest, reader, files);
    CompletedJobs(TotalSize(ns, files), Start(fs0, events0), jobs);
  }

  /** With a reader that delivers exactly the declared sizes, the files'
      jobs deliver `total_size` bytes in all. */
  lemma {:induction false} BytesTotal(ns: seq<Node>, dest: string, reader: Reader, files: seq<nat>, n: nat)
    requires WellFormed(ns) && FilesHaveEntries(ns) && ReaderExact(reader)
    requires forall k :: 0 <= k < |files| ==> files[k] < |ns| && !ns[files[k]].isDir
    requires n <= |files|
    ensures Bytes(Jobs(ns, dest, reader, files)[..n]) == TotalSize(ns, files[..n])
    decreases n
  {
    if n > 0 {
      BytesTotal(ns, dest, reader, files, n - 1);
      var jobs := Jobs(ns, dest, reader, files);
      assert jobs[..n][..n - 1] == jobs[..n - 1];
      assert files[..n][..n - 1] == files[..n - 1];
      var f := files[n - 1];
      assert jobs[n - 1].chunks == reader(ns[f].zipinfo.value);
    }
  }

  /** A complete run over an exact reader copies `total_size` bytes, so its
      overall progress ends at the total it reports against. */
  lemma CompletedRunDownloadsTotal(ns: seq<Node>, dest: string, reader: Reader, sel: seq<nat>,
                                   fs0: map<string, seq<byte>>, events0: seq<Event>)
    requires WellFormed(ns) && FilesHaveEntries(ns) && ReaderExact(reader)
    requires forall k :: 0 <= k < |sel| ==> sel[k] < |ns|
    ensures var files := Collected(ns, sel);
            var st := Replay(TotalSize(ns, files), Start(fs0, events0), Plan(Jobs(ns, dest, reader, files)));
            st.downloaded == TotalSize(ns, files)
  {
    var files := Collected(ns, sel);
    CollectedFiles(ns, sel);
    var jobs := Jobs(ns, dest, reader, files);
    BytesTotal(ns, dest, reader, files, |files|);
    assert jobs[..|files|] == jobs && files[..|files|] == files;
    ReplayPlan(TotalSize(ns, files), Start(fs0, events0), jobs);
  }

  // ---------------------------------------------------------------------
  // The signals of one entry

  /** The signals of an entry's writes, one pair per chunk: the bytes read
      of the entry so far against its declared size, then the bytes copied
      in all so far against the total. */
  lemma {:induction false} WriteEventsAt(j: Job, total: nat, down: nat, n: nat, k: nat)
    requires k < n <= |j.chunks|
    ensures |WriteEvents(j, total, down, n)| == 2 * n
    ensures WriteEvents(j, total, down, n)[2 * k] == FileProgress(j.name, |Flatten(j.chunks[..k + 1])|, j.size)
    ensures WriteEvents(j, total, down, n)[2 * k + 1] == OverallProgress(down + |Flatten(j.chunks[..k + 1])|, total)
    decreases n
  {
    if k < n - 1 {
      WriteEventsAt(j, total, down, n - 1, k);
    } else if n > 1 {
      WriteEventsAt(j, total, down, n - 1, 0);
    }
  }

  /** The file progress of an entry rises strictly, chunk by chunk, and the
      last one reports every byte of the entry: with an exact reader, the
      entry's declared size. */
  lemma FileProgressRises(j: Job, total: nat, down: nat, k: nat, l: nat)
    requires ChunksNonEmpty(j) && k < l < |j.chunks|
    ensures var evs := WriteEvents(j, total, down, |j.chunks|);
            && |evs| == 2 * |j.chunks|
            && evs[2 * k].FileProgress? && evs[2 * l].FileProgress?
            && evs[2 * k].current < evs[2 * l].current
            && evs[2 * (|j.chunks| - 1)].FileProgress?
            && evs[2 * (|j.chunks| - 1)].current == |Flatten(j.chunks)|
  {
    FileProgressOrder(j, total, down, k, l);
    FileProgressLast(j, total, down);
  }

  /** An earlier file-progress signal of an entry reports fewer bytes. */
  lemma FileProgressOrder(j: Job, total: nat, down: nat, k: nat, l: nat)
    requires ChunksNonEmpty(j) && k < l < |j.chunks|
    ensures var evs := WriteEvents(j, total, down, |j.chunks|);
            && |evs| == 2 * |j.chunks|
            && evs[2 * k].FileProgress? && evs[2 * l].FileProgress?
            && evs[2 * k].current < evs[2 * l].current
  {
    var n := |j.chunks|;
    WriteEventsAt(j, total, down, n, k);
    WriteEventsAt(j, total, down, n, l);
    FlattenPrefixGrows(j.chunks, k + 1, l + 1);
  }

  /** The last file-progress signal of an entry reports all its bytes. */
  lemma FileProgressLast(j: Job, total: nat, down: nat)
    requires |j.chunks| > 0
    ensures var evs := WriteEvents(j, total, down, |j.chunks|);
            && |evs| == 2 * |j.chunks|
            && evs[2 * (|j.chunks| - 1)] == FileProgress(j.name, |Flatten(j.chunks)|, j.size)
  {
    var n := |j.chunks|;
    WriteEventsAt(j, total, down, n, n - 1);
    assert j.chunks[..n] == j.chunks;
  }

  // ---------------------------------------------------------------------
  // The signals of a run

  /** The `current` values of the overall-progress signals, in order. */
  function Overall(evs: seq<Event>): seq<nat>
  {
    if evs == [] then []
    else
      var e := evs[|evs| - 1];
      Overall(evs[..|evs| - 1]) + (if e.OverallProgress? then [e.current] else [])
  }

  /** Each value is larger than the one before it. */
  predicate Rising(xs: seq<nat>)
  {
    forall k :: 0 < k < |xs| ==> xs[k - 1] < xs[k]
  }

  /** The overall progress reported so far rises strictly and never
      exceeds the bytes copied so far. */
  predicate SignalsOk(st: Progress)
  {
    Rising(Overall(st.events)) && forall k :: 0 <= k < |Overall(st.events)| ==> Overall(st.events)[k] <= st.downloaded
  }

  /** Every write in `acts` writes at least one byte. */
  predicate WritesNonEmpty(acts: seq<Action>)
  {
    forall k :: 0 <= k < |acts| && acts[k].Write? ==> acts[k].data != []
  }

  /** A step keeps the overall progress rising and adds no `finished`. */
  lemma StepSignals(total: nat, st: Progress, a: Action)
    requires SignalsOk(st)
    requires a.Write? ==> a.data != []
    ensures SignalsOk(Step(total, st, a))
    ensures Finished in Step(total, st, a).events <==> Finished in st.events
  {
    if a.Write? {
      var st' := Step(total, st, a);
      var e1 := FileProgress(a.name, st.read + |a.data|, a.size);
      var e2 := OverallProgress(st.downloaded + |a.data|, total);
      assert st'.events == st.events + [e1] + [e2];
      assert (st.events + [e1] + [e2])[..|st.events| + 1] == st.events + [e1];
      assert (st.events + [e1])[..|st.events|] == st.events;
      assert Overall(st'.events) == Overall(st.events) + [st.downloaded + |a.data|];
    }
  }

  /** Performing actions that write at least one byte each keeps the
      overall progress rising and adds no `finished`. */
  lemma {:induction false} ReplaySignals(total: nat, st: Progress, acts: seq<Action>)
    requires SignalsOk(st) && WritesNonEmpty(acts)
    ensures SignalsOk(Replay(total, st, acts))
    ensures Finished in Replay(total, st, acts).events <==> Finished in st.events
    decreases |acts|
  {
    if acts != [] {
      var init := acts[..|acts| - 1];
      assert WritesNonEmpty(init) by {
        forall k | 0 <= k < |init| && init[k].Write?
          ensures init[k].data != []
        {
          assert init[k] == acts[k];
        }
      }
      ReplaySignals(total, st, init);
      StepSignals(total, Replay(total, st, init), acts[|acts| - 1]);
    }
  }

  /** A plan of jobs without empty chunks writes at least one byte per
      write. */
  lemma {:induction false} PlanWritesNonEmpty(jobs: seq<Job>)
    requires forall i :: 0 <= i < |jobs| ==> ChunksNonEmpty(jobs[i])
    ensures WritesNonEmpty(Plan(jobs))
    decreases |jobs|
  {
    if jobs != [] {
      var n := |jobs| - 1;
      PlanWritesNonEmpty(jobs[..n]);
      var p := Plan(jobs[..n]);
      var e := EntryActions(jobs[n]);
      var plan: seq<Action> := p + e;
      assert Plan(jobs) == plan;
      forall k | 0 <= k < |plan| && plan[k].Write?
        ensures plan[k].data != []
      {
        if k >= |p| {
          EntryAt(jobs[n], k - |p|);
        }
      }
    }
  }

  /** Whatever checkpoint the cancellation lands at, a run that starts with
      no overall progress and no `finished` reports overall progress that
      rises strictly and stays within the bytes copied, and emits no
      `finished` before its last signal; `run()` then appends exactly one. */
  lemma RunSignals(jobs: seq<Job>, total: nat, fs0: map<string, seq<byte>>, events0: seq<Event>,
                   wasCancelled: bool, cancelAt: Option<nat>)
    requires forall i :: 0 <= i < |jobs| ==> ChunksNonEmpty(jobs[i])
    requires Overall(events0) == [] && Finished !in events0
    ensures var plan := Plan(jobs);
            var st := Replay(total, Start(fs0, events0), plan[..Performed(|plan|, wasCancelled, cancelAt)]);
            SignalsOk(st) && Finished !in st.events
  {
    var plan := Plan(jobs);
    var cut := Performed(|plan|, wasCancelled, cancelAt);
    PlanWritesNonEmpty(jobs);
    assert WritesNonEmpty(plan[..cut]) by {
      forall k | 0 <= k < cut && plan[..cut][k].Write?
        ensures plan[..cut][k].data != []
      {
        assert plan[..cut][k] == plan[k];
      }
    }
    ReplaySignals(total, Start(fs0, events0), plan[..cut]);
  }
}
