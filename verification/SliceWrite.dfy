/** The replacement of the reviewed slice: files that are already up to date are
    left alone, and the manifest is written last.
 */
module SliceWrite {
  import opened FileTree
  import opened Disks
  import opened Sequences
  import opened Options
  import opened SlicePaths
  import opened Transaction
  import Decimal

  /** What is stored where a file with this data is. */
  ghost function Content(data: seq<bv8>): Tree {
    map[[] := File(data)]
  }

  lemma ContentIsNotEmpty(data: seq<bv8>)
    ensures Content(data) != map[]
  {
    assert [] in Content(data);
  }

  lemma FileContent(t: Tree, p: Path, data: seq<bv8>)
    requires Closed(t) && p in t && t[p] == File(data)
    ensures At(t, p) == Content(data)
  {
    forall s
      ensures p + s in t ==> s == []
    {
      assert s != [] ==> (p + s)[..|p|] == p;
    }
    assert p + [] == p;
    Contents(t, p);
  }

  /** A job dealt with has its content in place; unless it was recorded, its
      destination is as it was; a job still to come has its product staged. */
  ghost predicate Written(job: Job, data: seq<bv8>, t0: Tree, t: Tree, done: bool, recorded: bool) {
    && (done ==> At(t, job.dest) == Content(data))
    && (!recorded ==> At(t, job.dest) == At(t0, job.dest))
    && (!done ==> At(t, job.source) == Content(data))
  }

  /** The first i jobs are dealt with: each recorded one has its product in place
      and its original saved, each other one was up to date. */
  ghost predicate WrittenUpTo(jobs: seq<Job>, data: seq<seq<bv8>>, changed: seq<Replacement>, which: seq<nat>, t0: Tree, t: Tree, i: nat) {
    && |data| == |jobs| && i <= |jobs| && Records(changed, jobs, which)
    && (forall k :: 0 <= k < |which| ==> which[k] < i)
    && (forall k :: 0 <= k < |changed| ==> changed[k].installed && Saved(changed[k].job, t0, t, changed[k].backup))
    && (forall k :: 0 <= k < |jobs| ==> Written(jobs[k], data[k], t0, t, k < i, k in which))
  }

  /** A new manifest, the last job's product, is at its destination only when all
      the other products are. */
  ghost predicate ManifestLast(jobs: seq<Job>, data: seq<seq<bv8>>, s: Tree)
    requires |data| == |jobs| > 0
  {
    At(s, jobs[|jobs| - 1].dest) == Content(data[|jobs| - 1]) ==>
      forall k :: 0 <= k < |jobs| ==> At(s, jobs[k].dest) == Content(data[k])
  }

  /** The manifest on disk before the run is not the new one. */
  ghost predicate ManifestDiffers(jobs: seq<Job>, data: seq<seq<bv8>>, t0: Tree)
    requires |data| == |jobs| > 0
  {
    At(t0, jobs[|jobs| - 1].dest) != Content(data[|jobs| - 1])
  }

  /** Working on job i keeps the order: before the last job the manifest is not
      touched, and during it everything else is in place. */
  lemma ManifestLastDuring(jobs: seq<Job>, data: seq<seq<bv8>>, changed: seq<Replacement>, which: seq<nat>, t0: Tree, t: Tree, i: nat, s: Tree)
    requires JobsApart(jobs) && WrittenUpTo(jobs, data, changed, which, t0, t, i) && i < |jobs|
    requires OnlyJob(jobs[i], t, s) && ManifestDiffers(jobs, data, t0)
    ensures ManifestLast(jobs, data, s)
  {
    hide At, OnlyJob, JobsApart, Content, Saved;
    var last := |jobs| - 1;
    if i < last {
      assert Written(jobs[last], data[last], t0, t, false, false);
      OtherUntouched(jobs, i, last, t, s);
    } else {
      forall k | 0 <= k < last
        ensures At(s, jobs[k].dest) == Content(data[k])
      {
        assert Written(jobs[k], data[k], t0, t, true, k in which);
        OtherUntouched(jobs, i, k, t, s);
      }
      ManifestMayFollow(jobs, data, s);
    }
  }

  lemma ManifestMayFollow(jobs: seq<Job>, data: seq<seq<bv8>>, s: Tree)
    requires |data| == |jobs| > 0
    requires forall k :: 0 <= k < |jobs| - 1 ==> At(s, jobs[k].dest) == Content(data[k])
    ensures ManifestLast(jobs, data, s)
  {
    hide At, Content;
  }

  lemma ManifestLastWhileUndoing(jobs: seq<Job>, data: seq<seq<bv8>>, shown: set<nat>, t0: Tree, s: Tree)
    requires |data| == |jobs| > 0 && ManifestDiffers(jobs, data, t0)
    requires |jobs| - 1 !in shown && OthersNotShown(jobs, shown, t0, s)
    ensures ManifestLast(jobs, data, s)
  {
    ContentIsNotEmpty(data[|jobs| - 1]);
    hide At, Content;
    assert NotShown(jobs[|jobs| - 1], t0, s);
  }

  lemma SkippedUpTo(jobs: seq<Job>, data: seq<seq<bv8>>, changed: seq<Replacement>, which: seq<nat>, t0: Tree, t: Tree, i: nat)
    requires WrittenUpTo(jobs, data, changed, which, t0, t, i) && i < |jobs|
    requires At(t, jobs[i].dest) == Content(data[i])
    ensures WrittenUpTo(jobs, data, changed, which, t0, t, i + 1)
  {
    hide At, Content, Saved, Records;
    forall k | 0 <= k < |jobs|
      ensures Written(jobs[k], data[k], t0, t, k < i + 1, k in which)
    {
      assert Written(jobs[k], data[k], t0, t, k < i, k in which);
    }
  }

  lemma StillWritten(job: Job, data: seq<bv8>, t0: Tree, t: Tree, s: Tree, done: bool, recorded: bool)
    requires Written(job, data, t0, t, done, recorded)
    requires At(s, job.dest) == At(t, job.dest) && At(s, job.source) == At(t, job.source)
    ensures Written(job, data, t0, s, done, recorded)
  {
    hide At, Content;
  }

  lemma StillSaved(job: Job, t0: Tree, t: Tree, s: Tree, backup: Option<Path>)
    requires Saved(job, t0, t, backup) && At(s, job.backup) == At(t, job.backup)
    ensures Saved(job, t0, s, backup)
  {
    hide At;
  }

  lemma InstalledUpTo(jobs: seq<Job>, data: seq<seq<bv8>>, changed: seq<Replacement>, which: seq<nat>, t0: Tree, t: Tree, i: nat,
                      s: Tree, backup: Option<Path>)
    requires JobsApart(jobs) && WrittenUpTo(jobs, data, changed, which, t0, t, i) && i < |jobs|
    requires OnlyJob(jobs[i], t, s) && Saved(jobs[i], t0, s, backup) && At(s, jobs[i].dest) == Content(data[i])
    ensures WrittenUpTo(jobs, data, changed + [Replacement(jobs[i], backup, true)], which + [i], t0, s, i + 1)
  {
    hide At, OnlyJob, JobsApart, Content, Saved;
    var which', changed' := which + [i], changed + [Replacement(jobs[i], backup, true)];
    assert which'[|which|] == i;
    forall k | 0 <= k < |jobs|
      ensures Written(jobs[k], data[k], t0, s, k < i + 1, k in which')
    {
      if k != i {
        OtherUntouched(jobs, i, k, t, s);
        StillWritten(jobs[k], data[k], t0, t, s, k < i, k in which);
      }
    }
    forall k | 0 <= k < |changed'|
      ensures Saved(changed'[k].job, t0, s, changed'[k].backup)
    {
      if k < |changed| {
        OtherUntouched(jobs, i, which[k], t, s);
        StillSaved(changed[k].job, t0, t, s, changed[k].backup);
      }
    }
  }

  lemma ReadyToUndoSlice(jobs: seq<Job>, data: seq<seq<bv8>>, changed: seq<Replacement>, which: seq<nat>, t0: Tree, t: Tree, i: nat,
                         s: Tree, begun: seq<Replacement>)
    requires JobsApart(jobs) && WrittenUpTo(jobs, data, changed, which, t0, t, i) && i < |jobs|
    requires OnlyJob(jobs[i], t, s)
    requires begun == [] ==> At(s, jobs[i].dest) == At(t0, jobs[i].dest)
    requires begun != [] ==> |begun| == 1 && begun[0].job == jobs[i] && !begun[0].installed && Undoable(begun[0], t0, s)
    ensures var started, which' := changed + begun, which + if begun == [] then [] else [i];
      UndoneFrom(started, jobs, which', t0, s, |started|, {}) && |jobs| - 1 !in Shown(started, which')
  {
    hide At, OnlyJob, JobsApart, Content, Saved;
    var started, which' := changed + begun, which + if begun == [] then [] else [i];
    forall k | 0 <= k < |started|
      ensures Settled(started[k], t0, s, true, false)
    {
      if k < |changed| {
        OtherUntouched(jobs, i, which[k], t, s);
        StillSaved(changed[k].job, t0, t, s, changed[k].backup);
      }
    }
    assert forall k :: k in which' <==> k in which || (begun != [] && k == i);
    forall k | 0 <= k < |jobs| && k !in which'
      ensures At(s, jobs[k].dest) == At(t0, jobs[k].dest)
    {
      if k != i {
        OtherUntouched(jobs, i, k, t, s);
        assert Written(jobs[k], data[k], t0, t, k < i, k in which);
      }
    }
  }

  /** In every tree of past, a new manifest implies new artifacts. */
  ghost predicate AlwaysManifestLast(jobs: seq<Job>, data: seq<seq<bv8>>, past: seq<Tree>)
    requires |data| == |jobs| > 0
  {
    forall k :: 0 <= k < |past| ==> ManifestLast(jobs, data, past[k])
  }

  lemma ManifestLastInStep(jobs: seq<Job>, data: seq<seq<bv8>>, changed: seq<Replacement>, which: seq<nat>, t0: Tree, t: Tree, i: nat, more: seq<Tree>)
    requires JobsApart(jobs) && WrittenUpTo(jobs, data, changed, which, t0, t, i) && i < |jobs|
    requires |data| == |jobs| && WorkedOn(jobs[i], t, t0, more) && ManifestDiffers(jobs, data, t0)
    ensures AlwaysManifestLast(jobs, data, more)
  {
    hide OnlyJob, Kept, JobsApart, WrittenUpTo, ManifestLast, ManifestDiffers;
    forall k | 0 <= k < |more|
      ensures ManifestLast(jobs, data, more[k])
    {
      ManifestLastDuring(jobs, data, changed, which, t0, t, i, more[k]);
    }
  }

  lemma ManifestLastInRollback(jobs: seq<Job>, data: seq<seq<bv8>>, shown: set<nat>, t0: Tree, more: seq<Tree>)
    requires |data| == |jobs| > 0 && ManifestDiffers(jobs, data, t0) && |jobs| - 1 !in shown
    requires forall k :: 0 <= k < |more| ==> OthersNotShown(jobs, shown, t0, more[k])
    ensures AlwaysManifestLast(jobs, data, more)
  {
    hide OthersNotShown, ManifestLast, ManifestDiffers;
    forall k | 0 <= k < |more|
      ensures ManifestLast(jobs, data, more[k])
    {
      ManifestLastWhileUndoing(jobs, data, shown, t0, more[k]);
    }
  }

  lemma ManifestLastConcat(jobs: seq<Job>, data: seq<seq<bv8>>, past: seq<Tree>, more: seq<Tree>)
    requires |data| == |jobs| > 0 && AlwaysManifestLast(jobs, data, past) && AlwaysManifestLast(jobs, data, more)
    ensures AlwaysManifestLast(jobs, data, past + more)
  {
    hide ManifestLast;
  }

  /** After a rollback every destination is restored or has its backup. */
  lemma SliceRestored(jobs: seq<Job>, changed: seq<Replacement>, which: seq<nat>, t0: Tree, t: Tree)
    requires UndoneFrom(changed, jobs, which, t0, t, 0, {})
    ensures forall i :: 0 <= i < |jobs| ==> At(t, jobs[i].dest) == At(t0, jobs[i].dest)
  {
    hide At;
    forall i | 0 <= i < |jobs|
      ensures At(t, jobs[i].dest) == At(t0, jobs[i].dest)
    {
      if i in which {
        var k :| 0 <= k < |which| && which[k] == i;
        assert Settled(changed[k], t0, t, false, false);
      }
    }
  }

  lemma NothingWrittenYet(jobs: seq<Job>, data: seq<seq<bv8>>, t0: Tree)
    requires |data| == |jobs| && forall i :: 0 <= i < |jobs| ==> At(t0, jobs[i].source) == Content(data[i])
    ensures WrittenUpTo(jobs, data, [], [], t0, t0, 0)
  {
    hide At, Content;
  }

  /** What a step on job i says about its content, seen from the start of the run. */
  lemma SinceStartOfWrite(job: Job, data: seq<bv8>, t0: Tree, t: Tree, s: Tree, step: Step, backup: Option<Path>, more: seq<Tree>)
    requires Written(job, data, t0, t, false, false)
    requires WorkedOn(job, t, t, more)
    requires step == NotStarted ==> Ready(job, t, s)
    requires step == Removed ==> Cleared(job, t, s, backup)
    requires step == Installed ==> InPlace(job, t, s, backup)
    ensures WorkedOn(job, t, t0, more) && OnlyJob(job, t, s) && Kept(job, t0, s)
    ensures step == NotStarted ==> At(s, job.dest) == At(t0, job.dest)
    ensures step == Removed ==> Undoable(Replacement(job, backup, false), t0, s)
    ensures step == Installed ==> Saved(job, t0, s, backup) && At(s, job.dest) == Content(data)
  {
    hide At, OnlyJob, Content;
  }

  /** A destination is up to date when it can be read and holds the new data. */
  method UpToDate(disk: Disk, p: Path, data: seq<bv8>) returns (same: bool)
    requires disk.Valid()
    ensures same ==> At(disk.tree, p) == Content(data)
  {
    var fault: bool := *;
    same := !fault && p in disk.tree && disk.tree[p] == File(data);
    if same {
      FileContent(disk.tree, p, data);
    }
  }

  /** Replaces the files that differ, the last job's being the manifest, or undoes
      what it did. */
  method Write(disk: Disk, jobs: seq<Job>, data: seq<seq<bv8>>) returns (result: CommitResult, ghost past: seq<Tree>)
    requires disk.Valid() && JobsApart(jobs) && |data| == |jobs| > 0
    requires forall i :: 0 <= i < |jobs| ==> At(disk.tree, jobs[i].source) == Content(data[i])
    modifies disk
    ensures disk.Valid() && disk.history == old(disk.history) + past
    ensures result == Committed ==> forall i :: 0 <= i < |jobs| ==> At(disk.tree, jobs[i].dest) == Content(data[i])
    ensures result == Failed({}) ==> forall i :: 0 <= i < |jobs| ==> At(disk.tree, jobs[i].dest) == At(old(disk.tree), jobs[i].dest)
    ensures SafeThroughout(jobs, old(disk.tree), past)
    ensures NothingLost(jobs, old(disk.tree), disk.tree) && OnlyJobs(jobs, old(disk.tree), disk.tree)
    ensures ManifestDiffers(jobs, data, old(disk.tree)) ==> AlwaysManifestLast(jobs, data, past)
    ensures disk.failures >= old(disk.failures) && (result.Failed? ==> disk.failures > old(disk.failures))
    ensures result.Retained() ==> disk.failures > old(disk.failures) + 1
  {
    hide At, Content, OnlyJob, Kept, Closed, JobApart, ClearOf, NothingLost, OnlyJobs, SafeThroughout, WorkedOn, Ready, Cleared, InPlace,
         Undoable, Saved, OthersNotShown, Shown, AlwaysManifestLast, ManifestDiffers, Written;
    ghost var t0 := disk.tree;
    SafeAtFirst(jobs, t0);
    NothingWrittenYet(jobs, data, t0);
    var changed: seq<Replacement> := [];
    ghost var which: seq<nat> := [];
    past := [];
    assert AlwaysManifestLast(jobs, data, past) by {
      NoTreesYet(jobs, data);
    }
    for i := 0 to |jobs|
      invariant disk.failures >= old(disk.failures)
      invariant disk.Valid() && disk.history == old(disk.history) + past
      invariant WrittenUpTo(jobs, data, changed, which, t0, disk.tree, i)
      invariant SafeThroughout(jobs, t0, past)
      invariant NothingLost(jobs, t0, disk.tree) && OnlyJobs(jobs, t0, disk.tree)
      invariant ManifestDiffers(jobs, data, t0) ==> AlwaysManifestLast(jobs, data, past)
    {
      var same := UpToDate(disk, jobs[i].dest, data[i]);
      if same {
        SkippedUpTo(jobs, data, changed, which, t0, disk.tree, i);
        continue;
      }
      ghost var t, h := disk.tree, disk.history;
      assert Written(jobs[i], data[i], t0, t, i < i, i in which);
      ghost var more;
      var step, backup;
      step, backup, more := ReplaceOne(disk, jobs[i]);
      SinceStartOfWrite(jobs[i], data[i], t0, t, disk.tree, step, backup, more);
      SafeAfter(jobs, i, t0, t, past, more);
      NothingLostAfter(jobs, i, t0, t, disk.tree);
      OnlyJobsAfter(jobs, i, t0, t, disk.tree);
      Chain(old(disk.history), past, h, more, disk.history);
      if ManifestDiffers(jobs, data, t0) {
        ManifestLastInStep(jobs, data, changed, which, t0, t, i, more);
        ManifestLastConcat(jobs, data, past, more);
      }
      past := past + more;
      h := disk.history;
      if step != Installed {
        var begun := if step == Removed then [Replacement(jobs[i], backup, false)] else [];
        ReadyToUndoSlice(jobs, data, changed, which, t0, t, i, disk.tree, begun);
        changed, which := changed + begun, which + if begun == [] then [] else [i];
        var failed;
        failed, more := Rollback(disk, changed, jobs, which, t0);
        if failed == {} {
          SliceRestored(jobs, changed, which, t0, disk.tree);
        }
        SafeConcat(jobs, t0, past, more);
        Chain(old(disk.history), past, h, more, disk.history);
        if ManifestDiffers(jobs, data, t0) {
          ManifestLastInRollback(jobs, data, Shown(changed, which), t0, more);
          ManifestLastConcat(jobs, data, past, more);
        }
        past := past + more;
        return Failed(failed), past;
      }
      InstalledUpTo(jobs, data, changed, which, t0, t, i, disk.tree, backup);
      changed, which := changed + [Replacement(jobs[i], backup, true)], which + [i];
    }
    result := Committed;
    AllWritten(jobs, data, changed, which, t0, disk.tree);
  }

  lemma NoTreesYet(jobs: seq<Job>, data: seq<seq<bv8>>)
    requires |data| == |jobs| > 0
    ensures AlwaysManifestLast(jobs, data, [])
  {
  }

  lemma AllWritten(jobs: seq<Job>, data: seq<seq<bv8>>, changed: seq<Replacement>, which: seq<nat>, t0: Tree, t: Tree)
    requires WrittenUpTo(jobs, data, changed, which, t0, t, |jobs|)
    ensures forall i :: 0 <= i < |jobs| ==> At(t, jobs[i].dest) == Content(data[i])
  {
    hide At, Content;
    forall i | 0 <= i < |jobs|
      ensures At(t, jobs[i].dest) == Content(data[i])
    {
      assert Written(jobs[i], data[i], t0, t, true, i in which);
    }
  }

  // ---- the slice's own paths ----

  /** A name for the stage, beside the slice's files in "bindings". */
  predicate IsStageName(name: string) {
    name !in ["wdk", "win32", "winrt", "slice.manifest.json"]
  }

  function StagePath(stage: Path, part: string, i: nat): Path {
    stage + [part, Decimal.Padded(i, 2)]
  }

  function JobFor(root: Path, stage: Path, path: Path, i: nat): Job {
    Job(root + path, StagePath(stage, "new", i), StagePath(stage, "old", i), false)
  }

  function JobsFor(root: Path, stage: Path, paths: seq<Path>): (jobs: seq<Job>)
    ensures |jobs| == |paths|
    ensures forall i :: 0 <= i < |paths| ==> jobs[i] == JobFor(root, stage, paths[i], i)
  {
    seq(|paths|, i requires 0 <= i < |paths| => JobFor(root, stage, paths[i], i))
  }

  /** Enough about the slice's paths to keep any two apart. */
  predicate Shaped(p: Path) {
    || (|p| == 2 && p[0] == "bindings" && p[1] == "slice.manifest.json")
    || (|p| == 4 && p[0] == "bindings" && p[1] in ["wdk", "win32"])
    || (|p| == 5 && p[0] == "bindings" && p[1] == "winrt")
  }

  lemma SlicePathsAreShaped(p: Path)
    requires IsSlicePath(p)
    ensures Shaped(p)
  {
    if p in ARTIFACTS {
      var i :| 0 <= i < |ARTIFACTS| && p == ARTIFACTS[i];
    }
  }

  lemma SlicePathsApart(p: Path, q: Path)
    requires Shaped(p) && Shaped(q) && p != q
    ensures Apart(p, q)
  {
    assert p[1] != q[1] || |p| == |q|;
  }

  lemma StagePathsApart(stage: Path, part: string, i: nat, part': string, j: nat)
    requires part != part' || i != j
    ensures Apart(StagePath(stage, part, i), StagePath(stage, part', j))
  {
    Decimal.PaddedDenotes(i, 2);
    Decimal.PaddedDenotes(j, 2);
    var p, q := [part, Decimal.Padded(i, 2)], [part', Decimal.Padded(j, 2)];
    assert p[0] != q[0] || p[1] != q[1];
    ApartUnder(stage, p, q);
  }

  lemma StageApart(root: Path, name: string, p: Path, part: string, i: nat)
    requires IsStageName(name) && Shaped(p)
    ensures Apart(root + p, StagePath(root + ["bindings", name], part, i))
    ensures Apart(StagePath(root + ["bindings", name], part, i), root + p)
  {
    var q := ["bindings", name, part, Decimal.Padded(i, 2)];
    assert p[1] != q[1];
    assert StagePath(root + ["bindings", name], part, i) == root + q;
    ApartUnder(root, p, q);
  }

  lemma JobApartFor(root: Path, name: string, p: Path, i: nat)
    requires IsStageName(name) && Shaped(p)
    ensures JobApart(JobFor(root, root + ["bindings", name], p, i))
  {
    StageApart(root, name, p, "new", i);
    StageApart(root, name, p, "old", i);
    StagePathsApart(root + ["bindings", name], "new", i, "old", i);
    hide Within;
  }

  lemma JobsClear(root: Path, name: string, p: Path, q: Path, i: nat, j: nat)
    requires IsStageName(name) && Shaped(p) && Shaped(q) && p != q && i != j
    ensures var stage := root + ["bindings", name];
      var job, other := JobFor(root, stage, p, i), JobFor(root, stage, q, j);
      ClearOf(job, other.dest) && ClearOf(job, other.source) && ClearOf(job, other.backup)
  {
    hide StagePath, Within;
    var stage := root + ["bindings", name];
    StageApart(root, name, p, "new", j);
    StageApart(root, name, p, "old", j);
    StageApart(root, name, q, "new", i);
    StageApart(root, name, q, "old", i);
    StagePathsApart(stage, "new", i, "new", j);
    StagePathsApart(stage, "new", i, "old", j);
    StagePathsApart(stage, "old", i, "new", j);
    StagePathsApart(stage, "old", i, "old", j);
    SlicePathsApart(p, q);
    ApartUnder(root, p, q);
  }

  lemma JobsForApart(root: Path, name: string, paths: seq<Path>)
    requires IsStageName(name) && NoRepeats(paths)
    requires forall p :: p in paths ==> IsSlicePath(p)
    ensures JobsApart(JobsFor(root, root + ["bindings", name], paths))
  {
    hide Shaped, IsStageName, IsSlicePath, JobApart, ClearOf, JobFor;
    var jobs := JobsFor(root, root + ["bindings", name], paths);
    forall i | 0 <= i < |jobs|
      ensures Shaped(paths[i]) && JobApart(jobs[i])
    {
      SlicePathsAreShaped(paths[i]);
      JobApartFor(root, name, paths[i], i);
    }
    forall i, j | 0 <= i < |jobs| && 0 <= j < |jobs| && i != j
      ensures ClearOf(jobs[i], jobs[j].dest) && ClearOf(jobs[i], jobs[j].source) && ClearOf(jobs[i], jobs[j].backup)
    {
      assert paths[i] != paths[j];
      JobsClear(root, name, paths[i], paths[j], i, j);
    }
  }

  /** Checks that exactly the slice's files are given. */
  method AllAllowed(sorted: seq<Path>) returns (ok: bool)
    requires NoRepeats(sorted)
    ensures ok <==> forall p :: p in sorted <==> IsSlicePath(p)
  {
    if |sorted| != |ARTIFACTS| + 1 {
      if forall p :: p in sorted <==> IsSlicePath(p) {
        HowManySliceFiles(sorted);
      }
      return false;
    }
    hide ARTIFACTS, IsSlicePath;
    for i := 0 to |sorted|
      invariant forall k :: 0 <= k < i ==> IsSlicePath(sorted[k])
    {
      if !IsSlicePath(sorted[i]) {
        return false;
      }
    }
    AllSliceFiles(sorted);
    ok := true;
  }

  /** The slice's files in the order they are written: all of them are there and
      the manifest is last. */
  method Plan(files: map<Path, seq<bv8>>, sorted: seq<Path>) returns (ok: bool, paths: seq<Path>, data: seq<seq<bv8>>)
    requires NoRepeats(sorted) && forall p :: p in sorted <==> p in files
    ensures ok <==> forall p :: p in files <==> IsSlicePath(p)
    ensures ok ==> paths == WithoutManifest(sorted) + [MANIFEST] && NoRepeats(paths)
    ensures ok ==> forall p :: p in paths <==> p in files
    ensures ok ==> |data| == |paths| && forall i :: 0 <= i < |paths| ==> data[i] == files[paths[i]]
  {
    hide ARTIFACTS, NoRepeats, WithoutManifest;
    paths, data := [], [];
    ok := AllAllowed(sorted);
    if !ok {
      return;
    }
    InWriteOrder(sorted);
    paths := ManifestToEnd(sorted);
    for i := 0 to |paths|
      invariant |data| == i
      invariant forall k :: 0 <= k < i ==> data[k] == files[paths[k]]
    {
      data := data + [files[paths[i]]];
    }
  }

  // ---- acceptance ----

  /** Nothing is at p, or a file that is recognised as written by the generator: owned
      tells which existing files are. */
  predicate MayReplace(t: Tree, root: Path, p: Path, owned: set<Path>) {
    root + p in t ==> t[root + p].File? && p in owned
  }

  /** The files are those of the slice, and each replaces only what it may. */
  ghost predicate IsAcceptedSlice(t: Tree, root: Path, files: map<Path, seq<bv8>>, owned: set<Path>) {
    (forall p :: p in files <==> IsSlicePath(p)) && forall p :: p in files ==> MayReplace(t, root, p, owned)
  }

  /** Looks at every destination before anything is changed. */
  method CheckDestinations(disk: Disk, root: Path, sorted: seq<Path>, owned: set<Path>) returns (ok: bool)
    modifies disk`failures
    ensures ok ==> forall p :: p in sorted ==> MayReplace(disk.tree, root, p, owned)
    ensures !ok ==> disk.failures > old(disk.failures) || exists p :: p in sorted && !MayReplace(disk.tree, root, p, owned)
    ensures disk.failures >= old(disk.failures)
  {
    for i := 0 to |sorted|
      invariant disk.failures >= old(disk.failures)
      invariant forall k :: 0 <= k < i ==> MayReplace(disk.tree, root, sorted[k], owned)
    {
      var p := sorted[i];
      var existing := disk.Lstat(root + p);
      if existing == Unknown {
        return false;
      }
      if existing == Exists {
        if !disk.tree[root + p].File? || p !in owned {
          assert !MayReplace(disk.tree, root, p, owned);
          return false;
        }
      }
    }
    ok := true;
  }

  // ---- one run ----

  /** Stages one file. */
  method StageOne(disk: Disk, stage: Path, i: nat, data: seq<bv8>) returns (ok: bool, ghost past: seq<Tree>)
    requires disk.Valid() && stage in disk.tree
    modifies disk
    ensures disk.Valid() && disk.history == old(disk.history) + past
    ensures forall k :: 0 <= k < |past| ==> SameOutside(old(disk.tree), past[k], stage)
    ensures SameOutside(old(disk.tree), disk.tree, stage) && stage in disk.tree
    ensures ok ==> At(disk.tree, StagePath(stage, "new", i)) == Content(data)
    ensures forall k: nat :: k != i ==> At(disk.tree, StagePath(stage, "new", k)) == At(old(disk.tree), StagePath(stage, "new", k))
    ensures disk.failures >= old(disk.failures) && (!ok ==> disk.failures > old(disk.failures))
  {
    hide At, Content, Closed, SameOutside, StagePath, AddsDirectories, Within;
    ghost var t0 := disk.tree;
    ok := disk.MkdirAll(stage + ["new"]);
    ghost var t1 := disk.tree;
    past := [t1];
    AfterStageDir(t0, t1, stage);
    if ok {
      ok := disk.WriteFile(StagePath(stage, "new", i), data);
      past := [t1, disk.tree];
      AfterStageFile(t1, disk.tree, stage, i);
      SameOutsideTransitive(t0, t1, disk.tree, stage);
      if ok {
        FileContent(disk.tree, StagePath(stage, "new", i), data);
      }
    }
  }

  lemma AfterStageDir(t: Tree, u: Tree, stage: Path)
    requires Closed(t) && stage in t && AddsDirectories(t, u, stage + ["new"])
    ensures SameOutside(t, u, stage) && stage in u
    ensures forall k: nat :: At(u, StagePath(stage, "new", k)) == At(t, StagePath(stage, "new", k))
  {
    hide At;
    MkdirInside(t, u, stage + ["new"], stage);
    forall k: nat
      ensures At(u, StagePath(stage, "new", k)) == At(t, StagePath(stage, "new", k))
    {
      AddsDirectoriesKeeps(t, u, stage + ["new"], StagePath(stage, "new", k));
    }
  }

  lemma AfterStageFile(t: Tree, u: Tree, stage: Path, i: nat)
    requires SameOutside(t, u, StagePath(stage, "new", i)) && stage in t
    ensures SameOutside(t, u, stage) && stage in u
    ensures forall k: nat :: k != i ==> At(u, StagePath(stage, "new", k)) == At(t, StagePath(stage, "new", k))
  {
    hide At;
    SameOutsideWider(t, u, StagePath(stage, "new", i), stage);
    assert Agree(t, u, stage);
    forall k: nat | k != i
      ensures At(u, StagePath(stage, "new", k)) == At(t, StagePath(stage, "new", k))
    {
      StagePathsApart(stage, "new", i, "new", k);
      SameOutsideKeeps(t, u, StagePath(stage, "new", i), StagePath(stage, "new", k));
    }
  }

  /** Stages every file under the stage's "new" directory, in write order. */
  method StageFiles(disk: Disk, stage: Path, data: seq<seq<bv8>>) returns (ok: bool, ghost past: seq<Tree>)
    requires disk.Valid() && stage in disk.tree
    modifies disk
    ensures disk.Valid() && disk.history == old(disk.history) + past
    ensures forall k :: 0 <= k < |past| ==> SameOutside(old(disk.tree), past[k], stage)
    ensures SameOutside(old(disk.tree), disk.tree, stage) && stage in disk.tree
    ensures ok ==> forall i :: 0 <= i < |data| ==> At(disk.tree, StagePath(stage, "new", i)) == Content(data[i])
    ensures disk.failures >= old(disk.failures) && (!ok ==> disk.failures > old(disk.failures))
  {
    hide At, Content, Closed, SameOutside, StagePath, AddsDirectories;
    ghost var t0 := disk.tree;
    SameOutsideSelf(t0, stage);
    past := [];
    for i := 0 to |data|
      invariant disk.failures >= old(disk.failures)
      invariant disk.Valid() && disk.history == old(disk.history) + past
      invariant forall k :: 0 <= k < |past| ==> SameOutside(t0, past[k], stage)
      invariant SameOutside(t0, disk.tree, stage) && stage in disk.tree
      invariant forall k :: 0 <= k < i ==> At(disk.tree, StagePath(stage, "new", k)) == Content(data[k])
    {
      ghost var t, h := disk.tree, disk.history;
      ghost var more;
      ok, more := StageOne(disk, stage, i, data[i]);
      Chain(old(disk.history), past, h, more, disk.history);
      StillOutside(t0, t, more, stage);
      SameOutsideTransitive(t0, t, disk.tree, stage);
      past := past + more;
      if !ok {
        return;
      }
    }
    ok := true;
  }

  lemma StillOutside(t0: Tree, t: Tree, more: seq<Tree>, stage: Path)
    requires SameOutside(t0, t, stage) && forall k :: 0 <= k < |more| ==> SameOutside(t, more[k], stage)
    ensures forall k :: 0 <= k < |more| ==> SameOutside(t0, more[k], stage)
  {
    hide SameOutside;
    forall k | 0 <= k < |more|
      ensures SameOutside(t0, more[k], stage)
    {
      SameOutsideTransitive(t0, t, more[k], stage);
    }
  }

  lemma StageRootApart(root: Path, name: string, p: Path)
    requires IsStageName(name) && IsSlicePath(p)
    ensures Apart(root + ["bindings", name], root + p)
  {
    SlicePathsAreShaped(p);
    hide IsSlicePath;
    assert p[1] != name;
    ApartUnder(root, ["bindings", name], p);
  }

  lemma StageFilesLeaveSlice(root: Path, name: string, paths: seq<Path>, t: Tree, u: Tree)
    requires IsStageName(name) && forall p :: p in paths ==> IsSlicePath(p)
    requires SameOutside(t, u, root + ["bindings", name])
    ensures forall i :: 0 <= i < |paths| ==> At(u, root + paths[i]) == At(t, root + paths[i])
  {
    hide At, SameOutside, Within, IsSlicePath;
    forall i | 0 <= i < |paths|
      ensures At(u, root + paths[i]) == At(t, root + paths[i])
    {
      StageRootApart(root, name, paths[i]);
      SameOutsideKeeps(t, u, root + ["bindings", name], root + paths[i]);
    }
  }

  datatype SliceResult = Written | Unchanged | BackupsRetained

  /** The manifest under root is the new one only when every artifact is. */
  ghost predicate ManifestImpliesArtifacts(root: Path, files: map<Path, seq<bv8>>, s: Tree)
    requires MANIFEST in files
  {
    At(s, root + MANIFEST) == Content(files[MANIFEST]) ==>
      forall p :: p in files ==> At(s, root + p) == Content(files[p])
  }

  /** The files in write order and the data that goes with them. */
  ghost predicate InOrder(files: map<Path, seq<bv8>>, paths: seq<Path>, data: seq<seq<bv8>>) {
    && |data| == |paths| > 0 && paths[|paths| - 1] == MANIFEST
    && (forall p :: p in paths <==> p in files)
    && (forall i :: 0 <= i < |paths| ==> data[i] == files[paths[i]])
  }

  lemma InOrderIsManifestLast(root: Path, stage: Path, files: map<Path, seq<bv8>>, paths: seq<Path>, data: seq<seq<bv8>>, s: Tree)
    requires InOrder(files, paths, data)
    ensures MANIFEST in files
    ensures ManifestLast(JobsFor(root, stage, paths), data, s) ==> ManifestImpliesArtifacts(root, files, s)
  {
    hide At, Content;
    var jobs := JobsFor(root, stage, paths);
    assert MANIFEST in paths;
    if ManifestLast(jobs, data, s) && At(s, root + MANIFEST) == Content(files[MANIFEST]) {
      forall p | p in files
        ensures At(s, root + p) == Content(files[p])
      {
        var i :| 0 <= i < |paths| && paths[i] == p;
        assert At(s, jobs[i].dest) == Content(data[i]);
      }
    }
  }

  /** Whatever replaced the slice leaves it so when only the stage changes. */
  lemma StageGone(root: Path, name: string, files: map<Path, seq<bv8>>, t: Tree, u: Tree)
    requires IsStageName(name) && (forall p :: p in files ==> IsSlicePath(p)) && SameOutside(t, u, root + ["bindings", name])
    ensures SliceSame(root, files, t, u)
  {
    hide At, SameOutside, IsSlicePath;
    forall p | p in files
      ensures At(u, root + p) == At(t, root + p)
    {
      StageFilesLeaveSlice(root, name, [p], t, u);
      assert [p][0] == p;
    }
  }

  ghost predicate NeverAhead(root: Path, files: map<Path, seq<bv8>>, past: seq<Tree>)
    requires MANIFEST in files
  {
    forall k :: 0 <= k < |past| ==> ManifestImpliesArtifacts(root, files, past[k])
  }

  lemma WritingNeverAhead(root: Path, stage: Path, files: map<Path, seq<bv8>>, paths: seq<Path>, data: seq<seq<bv8>>, past: seq<Tree>)
    requires InOrder(files, paths, data) && MANIFEST in files
    requires AlwaysManifestLast(JobsFor(root, stage, paths), data, past)
    ensures NeverAhead(root, files, past)
  {
    hide ManifestLast, ManifestImpliesArtifacts, InOrder;
    forall k | 0 <= k < |past|
      ensures ManifestImpliesArtifacts(root, files, past[k])
    {
      InOrderIsManifestLast(root, stage, files, paths, data, past[k]);
    }
  }

  /** Every path's content under root is the same in both trees. */
  ghost predicate SliceSame(root: Path, files: map<Path, seq<bv8>>, t: Tree, u: Tree) {
    forall p :: p in files ==> At(u, root + p) == At(t, root + p)
  }

  ghost predicate SliceIs(root: Path, files: map<Path, seq<bv8>>, t: Tree) {
    forall p :: p in files ==> At(t, root + p) == Content(files[p])
  }

  lemma AllJobs(root: Path, stage: Path, files: map<Path, seq<bv8>>, paths: seq<Path>, data: seq<seq<bv8>>, t: Tree, u: Tree)
    requires InOrder(files, paths, data)
    ensures (forall i :: 0 <= i < |paths| ==> At(u, JobsFor(root, stage, paths)[i].dest) == Content(data[i])) ==> SliceIs(root, files, u)
    ensures (forall i :: 0 <= i < |paths| ==> At(u, JobsFor(root, stage, paths)[i].dest) == At(t, JobsFor(root, stage, paths)[i].dest)) ==>
      SliceSame(root, files, t, u)
  {
    hide At, Content;
    var jobs := JobsFor(root, stage, paths);
    forall p | p in files
      ensures exists i :: 0 <= i < |paths| && jobs[i].dest == root + p && data[i] == files[p]
    {
      var i :| 0 <= i < |paths| && paths[i] == p;
      assert jobs[i].dest == root + p;
    }
  }

  lemma SameManifest(root: Path, files: map<Path, seq<bv8>>, t: Tree, u: Tree, v: Tree)
    requires SliceSame(root, files, t, u)
    ensures SliceSame(root, files, u, v) ==> SliceSame(root, files, t, v)
    ensures SliceIs(root, files, t) ==> SliceIs(root, files, u)
    ensures MANIFEST in files && At(t, root + MANIFEST) != Content(files[MANIFEST]) ==> ManifestImpliesArtifacts(root, files, u)
    ensures SliceIs(root, files, v) && MANIFEST in files ==> ManifestImpliesArtifacts(root, files, v)
  {
    hide At, Content;
  }

  lemma SameSlice(root: Path, files: map<Path, seq<bv8>>, t: Tree)
    ensures SliceSame(root, files, t, t)
  {
  }

  /** Making the stage's directory changes nothing at the slice's files. */
  lemma StageMade(root: Path, name: string, files: map<Path, seq<bv8>>, t: Tree, u: Tree)
    requires IsStageName(name) && (forall p :: p in files ==> IsSlicePath(p))
    requires AddsDirectories(t, u, root + ["bindings", name])
    ensures SliceSame(root, files, t, u)
  {
    hide At, AddsDirectories, IsSlicePath, IsStageName;
    forall p | p in files
      ensures At(u, root + p) == At(t, root + p)
    {
      StageRootApart(root, name, p);
      AddsDirectoriesKeeps(t, u, root + ["bindings", name], root + p);
    }
  }

  /** Originals kept since staging ended are the originals from before. */
  lemma KeptSinceBefore(root: Path, stage: Path, files: map<Path, seq<bv8>>, paths: seq<Path>, t: Tree, t1: Tree, u: Tree)
    requires SliceSame(root, files, t, t1) && forall p :: p in paths ==> p in files
    requires NothingLost(JobsFor(root, stage, paths), t1, u)
    ensures NothingLost(JobsFor(root, stage, paths), t, u)
  {
    hide At;
    var jobs := JobsFor(root, stage, paths);
    forall i | 0 <= i < |jobs|
      ensures Kept(jobs[i], t, u)
    {
      assert paths[i] in paths && Kept(jobs[i], t1, u);
    }
  }

  // ---- everything else ----

  /** q is neither in the stage nor at or below a file of the slice. */
  ghost predicate OutsideSlice(root: Path, stage: Path, files: map<Path, seq<bv8>>, q: Path) {
    !Within(q, stage) && forall p :: p in files ==> !Within(q, root + p)
  }

  /** q lies above the stage or a file of the slice. */
  ghost predicate AboveSlice(root: Path, stage: Path, files: map<Path, seq<bv8>>, q: Path) {
    Within(stage, q) || exists p :: p in files && Within(root + p, q)
  }

  /** What was at q is there; where nothing was, there is nothing or a new directory
      above the stage or the slice. */
  ghost predicate KeptAt(root: Path, stage: Path, files: map<Path, seq<bv8>>, t0: Tree, t: Tree, q: Path) {
    && (q in t0 ==> q in t && t[q] == t0[q])
    && (q in t && q !in t0 ==> t[q] == Directory && AboveSlice(root, stage, files, q))
  }

  ghost predicate RestKept(root: Path, stage: Path, files: map<Path, seq<bv8>>, t0: Tree, t: Tree) {
    forall q :: OutsideSlice(root, stage, files, q) ==> KeptAt(root, stage, files, t0, t, q)
  }

  lemma RestKeptSelf(root: Path, stage: Path, files: map<Path, seq<bv8>>, t: Tree)
    ensures RestKept(root, stage, files, t, t)
  {
  }

  lemma RestKeptTransitive(root: Path, stage: Path, files: map<Path, seq<bv8>>, t0: Tree, t: Tree, u: Tree)
    requires RestKept(root, stage, files, t0, t) && RestKept(root, stage, files, t, u)
    ensures RestKept(root, stage, files, t0, u)
  {
    hide OutsideSlice, AboveSlice;
    forall q | OutsideSlice(root, stage, files, q)
      ensures KeptAt(root, stage, files, t0, u, q)
    {
      assert KeptAt(root, stage, files, t0, t, q) && KeptAt(root, stage, files, t, u, q);
    }
  }

  lemma StageIsNotRest(root: Path, stage: Path, files: map<Path, seq<bv8>>, t: Tree, u: Tree)
    requires SameOutside(t, u, stage)
    ensures RestKept(root, stage, files, t, u)
  {
    hide Within, AboveSlice;
    forall q | OutsideSlice(root, stage, files, q)
      ensures KeptAt(root, stage, files, t, u, q)
    {
      assert Agree(t, u, q);
    }
  }

  lemma StageMadeIsNotRest(root: Path, stage: Path, files: map<Path, seq<bv8>>, t: Tree, u: Tree)
    requires AddsDirectories(t, u, stage)
    ensures RestKept(root, stage, files, t, u)
  {
  }

  lemma AboveJob(root: Path, stage: Path, files: map<Path, seq<bv8>>, p: Path, i: nat, q: Path)
    requires p in files && !Within(q, stage) && OnTheWay(JobFor(root, stage, p, i), q)
    ensures AboveSlice(root, stage, files, q)
  {
    var backup := StagePath(stage, "old", i);
    if Within(backup, q) {
      assert q == backup[..|q|] && stage == backup[..|stage|];
      assert |q| <= |stage| ==> q == stage[..|q|];
    }
  }

  lemma OutsideSliceIsOutside(root: Path, stage: Path, files: map<Path, seq<bv8>>, paths: seq<Path>, q: Path)
    requires OutsideSlice(root, stage, files, q) && forall p :: p in paths ==> p in files
    ensures Outside(JobsFor(root, stage, paths), q)
  {
    var jobs := JobsFor(root, stage, paths);
    forall i | 0 <= i < |jobs|
      ensures OutsideJob(jobs[i], q)
    {
      assert paths[i] in paths;
      assert stage <= jobs[i].source && stage <= jobs[i].backup;
    }
  }

  lemma OnlyJobsIsNotRest(root: Path, stage: Path, files: map<Path, seq<bv8>>, paths: seq<Path>, t: Tree, u: Tree)
    requires OnlyJobs(JobsFor(root, stage, paths), t, u) && forall p :: p in paths ==> p in files
    ensures RestKept(root, stage, files, t, u)
  {
    var jobs := JobsFor(root, stage, paths);
    hide Within, AboveSlice, JobFor, Outside;
    forall q | OutsideSlice(root, stage, files, q)
      ensures KeptAt(root, stage, files, t, u, q)
    {
      OutsideSliceIsOutside(root, stage, files, paths, q);
      assert SparedByAll(jobs, t, u, q);
      if q in u && q !in t {
        var i :| 0 <= i < |jobs| && OnTheWay(jobs[i], q);
        assert paths[i] in paths;
        AboveJob(root, stage, files, paths[i], i, q);
      }
    }
  }

  /** Everything outside the slice and the stage is as it was. */
  ghost predicate RestSame(root: Path, stage: Path, files: map<Path, seq<bv8>>, t0: Tree, t: Tree) {
    forall q :: OutsideSlice(root, stage, files, q) ==> Agree(t0, t, q)
  }

  lemma WayIsOutside(root: Path, name: string, files: map<Path, seq<bv8>>, p: Path)
    requires IsStageName(name) && (forall r :: r in files ==> IsSlicePath(r)) && (p == ["bindings", name] || p in files)
    ensures |root + p| > 0 && OutsideSlice(root, root + ["bindings", name], files, (root + p)[..|root + p| - 1])
  {
    hide IsSlicePath, IsStageName, Within, Shaped;
    var stage, dest := root + ["bindings", name], root + p;
    if p in files {
      StageRootApart(root, name, p);
      LongPath(p);
    }
    InsideParent(dest, stage);
    forall r | r in files
      ensures !Within(dest[..|dest| - 1], root + r)
    {
      InsideParent(dest, root + r);
      StageRootApart(root, name, r);
      if p in files && p != r {
        FilesApart(root, p, r);
      }
    }
  }

  lemma LongPath(p: Path)
    requires IsSlicePath(p)
    ensures |p| > 1
  {
    SlicePathsAreShaped(p);
  }

  lemma FilesApart(root: Path, p: Path, q: Path)
    requires IsSlicePath(p) && IsSlicePath(q) && p != q
    ensures Apart(root + p, root + q)
  {
    SlicePathsAreShaped(p);
    SlicePathsAreShaped(q);
    hide IsSlicePath;
    SlicePathsApart(p, q);
    ApartUnder(root, p, q);
  }

  lemma RestIsExact(root: Path, name: string, files: map<Path, seq<bv8>>, t0: Tree, t: Tree)
    requires Closed(t0) && Closed(t) && RestKept(root, root + ["bindings", name], files, t0, t)
    requires IsStageName(name) && forall p :: p in files ==> IsSlicePath(p)
    requires !MustBeMade(t0, root + ["bindings", name]) && forall p :: p in files ==> !MustBeMade(t0, root + p)
    ensures RestSame(root, root + ["bindings", name], files, t0, t)
  {
    hide Closed, MustBeMade, IsSlicePath, IsStageName, Within;
    var stage := root + ["bindings", name];
    forall q | OutsideSlice(root, stage, files, q)
      ensures Agree(t0, t, q)
    {
      assert KeptAt(root, stage, files, t0, t, q);
      if q in t && q !in t0 {
        var p :| (p == ["bindings", name] || p in files) && Within(root + p, q);
        AboveIsOutside(root, name, files, p);
        SelfIsWithin(q);
        assert forall r :: Within(root + p, r) && r != root + p && r in t0 ==> KeptAt(root, stage, files, t0, t, r);
        OnTheWayWasThere(t0, t, root + p, q);
      }
    }
  }

  lemma SelfIsWithin(q: Path)
    ensures Within(q, q)
  {
  }

  lemma AboveIsOutside(root: Path, name: string, files: map<Path, seq<bv8>>, p: Path)
    requires IsStageName(name) && (forall r :: r in files ==> IsSlicePath(r)) && (p == ["bindings", name] || p in files)
    ensures forall q :: Within(root + p, q) && q != root + p ==> OutsideSlice(root, root + ["bindings", name], files, q)
  {
    WayIsOutside(root, name, files, p);
    hide IsSlicePath, IsStageName;
    var dest := root + p;
    forall q, r | Within(dest, q) && q != dest && Within(q, r)
      ensures Within(dest[..|dest| - 1], r)
    {
      assert q == dest[..|q|] == dest[..|dest| - 1][..|q|];
    }
  }

  /** Writing the slice is sure to leave the rest as it was exactly when no directory has
      to be made, neither for the stage nor for a file. */
  lemma RestIsExactWhen(root: Path, name: string, files: map<Path, seq<bv8>>, t0: Tree)
    requires Closed(t0) && IsStageName(name) && forall p :: p in files ==> IsSlicePath(p)
    ensures var stage := root + ["bindings", name];
      (forall t :: Closed(t) && RestKept(root, stage, files, t0, t) ==> RestSame(root, stage, files, t0, t))
      <==> (!MustBeMade(t0, stage) && forall p :: p in files ==> !MustBeMade(t0, root + p))
  {
    hide Closed, MustBeMade, IsSlicePath, IsStageName, RestKept, RestSame;
    var stage := root + ["bindings", name];
    if !MustBeMade(t0, stage) && forall p :: p in files ==> !MustBeMade(t0, root + p) {
      forall t | Closed(t) && RestKept(root, stage, files, t0, t)
        ensures RestSame(root, stage, files, t0, t)
      {
        RestIsExact(root, name, files, t0, t);
      }
    } else {
      var p :| (p == ["bindings", name] || p in files) && MustBeMade(t0, root + p);
      WayMayStay(root, name, files, t0, p);
    }
  }

  lemma WayMayStay(root: Path, name: string, files: map<Path, seq<bv8>>, t0: Tree, p: Path)
    requires Closed(t0) && IsStageName(name) && (forall r :: r in files ==> IsSlicePath(r))
    requires (p == ["bindings", name] || p in files) && MustBeMade(t0, root + p)
    ensures var parent := (root + p)[..|root + p| - 1];
      var t := MakeDirectories(t0, parent, |parent|);
      var stage := root + ["bindings", name];
      Closed(t) && RestKept(root, stage, files, t0, t) && !RestSame(root, stage, files, t0, t)
  {
    hide IsSlicePath, IsStageName, OutsideSlice;
    var dest := root + p;
    var parent := dest[..|dest| - 1];
    var t := MakeDirectories(t0, parent, |parent|);
    MakeDirectoriesEffect(t0, parent, |parent|);
    assert parent[..|parent|] == parent;
    hide Closed, MakeDirectories, NoFileOnTheWay;
    WayIsOutside(root, name, files, p);
    assert !Agree(t0, t, parent);
    forall q | q in t && q !in t0
      ensures AboveSlice(root, root + ["bindings", name], files, q)
    {
      assert Within(parent, q);
      assert Within(dest, q);
    }
  }

  /** The slice and everything else outside the stage are as they were. */
  ghost predicate Quiet(root: Path, stage: Path, files: map<Path, seq<bv8>>, t0: Tree, t: Tree) {
    SliceSame(root, files, t0, t) && RestKept(root, stage, files, t0, t)
  }

  lemma QuietTransitive(root: Path, stage: Path, files: map<Path, seq<bv8>>, t0: Tree, t: Tree, u: Tree)
    requires Quiet(root, stage, files, t0, t) && Quiet(root, stage, files, t, u)
    ensures Quiet(root, stage, files, t0, u)
  {
    hide RestKept, At;
    RestKeptTransitive(root, stage, files, t0, t, u);
  }

  lemma StagingIsQuiet(root: Path, name: string, files: map<Path, seq<bv8>>, t: Tree, u: Tree)
    requires IsStageName(name) && (forall p :: p in files ==> IsSlicePath(p)) && SameOutside(t, u, root + ["bindings", name])
    ensures Quiet(root, root + ["bindings", name], files, t, u)
  {
    hide SameOutside, SliceSame, RestKept, IsSlicePath;
    StageGone(root, name, files, t, u);
    StageIsNotRest(root, root + ["bindings", name], files, t, u);
  }

  lemma AllStagingIsQuiet(root: Path, name: string, files: map<Path, seq<bv8>>, t0: Tree, t: Tree, past: seq<Tree>)
    requires IsStageName(name) && (forall p :: p in files ==> IsSlicePath(p))
    requires Quiet(root, root + ["bindings", name], files, t0, t)
    requires forall k :: 0 <= k < |past| ==> SameOutside(t, past[k], root + ["bindings", name])
    ensures forall k :: 0 <= k < |past| ==> Quiet(root, root + ["bindings", name], files, t0, past[k])
  {
    hide SameOutside, Quiet, IsSlicePath;
    forall k | 0 <= k < |past|
      ensures Quiet(root, root + ["bindings", name], files, t0, past[k])
    {
      StagingIsQuiet(root, name, files, t, past[k]);
      QuietTransitive(root, root + ["bindings", name], files, t0, t, past[k]);
    }
  }

  lemma QuietNeverAhead(root: Path, stage: Path, files: map<Path, seq<bv8>>, t0: Tree, past: seq<Tree>)
    requires OldManifest(root, files, t0) && forall k :: 0 <= k < |past| ==> Quiet(root, stage, files, t0, past[k])
    ensures MANIFEST in files && NeverAhead(root, files, past)
  {
    hide SliceSame, RestKept, ManifestImpliesArtifacts;
    forall k | 0 <= k < |past|
      ensures ManifestImpliesArtifacts(root, files, past[k])
    {
      StillOldManifest(root, files, t0, past[k]);
    }
  }

  /** What every state promises while the stage is there: no original is lost, and
      what is outside the stage and the slice is as it was. */
  ghost predicate Careful(root: Path, stage: Path, files: map<Path, seq<bv8>>, paths: seq<Path>, t0: Tree, t: Tree) {
    NothingLost(JobsFor(root, stage, paths), t0, t) && RestKept(root, stage, files, t0, t)
  }

  ghost predicate CarefulThroughout(root: Path, stage: Path, files: map<Path, seq<bv8>>, paths: seq<Path>, t0: Tree, past: seq<Tree>) {
    forall k :: 0 <= k < |past| ==> Careful(root, stage, files, paths, t0, past[k])
  }

  /** Careful since a state that was as at first is careful since the first. */
  lemma CarefulSinceBefore(root: Path, stage: Path, files: map<Path, seq<bv8>>, paths: seq<Path>, t: Tree, t1: Tree, u: Tree)
    requires Quiet(root, stage, files, t, t1) && forall p :: p in paths ==> p in files
    ensures Careful(root, stage, files, paths, t1, u) ==> Careful(root, stage, files, paths, t, u)
    ensures RestKept(root, stage, files, t1, u) ==> RestKept(root, stage, files, t, u)
  {
    hide NothingLost, RestKept, SliceSame;
    if RestKept(root, stage, files, t1, u) {
      RestKeptTransitive(root, stage, files, t, t1, u);
    }
    if NothingLost(JobsFor(root, stage, paths), t1, u) {
      KeptSinceBefore(root, stage, files, paths, t, t1, u);
    }
  }

  lemma AllCarefulSinceBefore(root: Path, stage: Path, files: map<Path, seq<bv8>>, paths: seq<Path>, t: Tree, t1: Tree, past: seq<Tree>)
    requires Quiet(root, stage, files, t, t1) && forall p :: p in paths ==> p in files
    requires CarefulThroughout(root, stage, files, paths, t1, past)
    ensures CarefulThroughout(root, stage, files, paths, t, past)
  {
    hide Careful, Quiet;
    forall k | 0 <= k < |past|
      ensures Careful(root, stage, files, paths, t, past[k])
    {
      CarefulSinceBefore(root, stage, files, paths, t, t1, past[k]);
    }
  }

  lemma QuietIsCareful(root: Path, stage: Path, files: map<Path, seq<bv8>>, paths: seq<Path>, t0: Tree, past: seq<Tree>)
    requires (forall k :: 0 <= k < |past| ==> Quiet(root, stage, files, t0, past[k])) && forall p :: p in paths ==> p in files
    ensures CarefulThroughout(root, stage, files, paths, t0, past)
  {
    hide RestKept, NothingLost, SliceSame;
    forall k | 0 <= k < |past|
      ensures NothingLost(JobsFor(root, stage, paths), t0, past[k])
    {
      SafeAtFirst(JobsFor(root, stage, paths), past[k]);
      KeptSinceBefore(root, stage, files, paths, t0, past[k], past[k]);
    }
  }

  lemma WritingIsCareful(root: Path, stage: Path, files: map<Path, seq<bv8>>, paths: seq<Path>, t0: Tree, past: seq<Tree>)
    requires SafeThroughout(JobsFor(root, stage, paths), t0, past) && forall p :: p in paths ==> p in files
    ensures CarefulThroughout(root, stage, files, paths, t0, past)
  {
    hide RestKept, NothingLost, OnlyJobs;
    forall k | 0 <= k < |past|
      ensures Careful(root, stage, files, paths, t0, past[k])
    {
      OnlyJobsIsNotRest(root, stage, files, paths, t0, past[k]);
    }
  }

  lemma CarefulConcat(root: Path, stage: Path, files: map<Path, seq<bv8>>, paths: seq<Path>, t0: Tree, past: seq<Tree>, more: seq<Tree>)
    requires CarefulThroughout(root, stage, files, paths, t0, past) && CarefulThroughout(root, stage, files, paths, t0, more)
    ensures CarefulThroughout(root, stage, files, paths, t0, past + more)
  {
    hide Careful;
  }

  /** All states but the last of a run that wrote the slice, and all states of
      every other run. */
  ghost function BeforeCleanup(past: seq<Tree>, result: SliceResult): seq<Tree> {
    if result == SliceResult.Written && past != [] then past[..|past| - 1] else past
  }

  /** The parts of a run's history, none of which shows the manifest too early. */
  lemma NeverAheadConcat(root: Path, files: map<Path, seq<bv8>>, past: seq<Tree>, more: seq<Tree>)
    requires MANIFEST in files && NeverAhead(root, files, past) && NeverAhead(root, files, more)
    ensures NeverAhead(root, files, past + more)
  {
    hide ManifestImpliesArtifacts;
  }

  lemma NeverAheadOne(root: Path, files: map<Path, seq<bv8>>, t: Tree)
    requires MANIFEST in files && ManifestImpliesArtifacts(root, files, t)
    ensures NeverAhead(root, files, [t])
  {
  }

  /** Removes the stage, whether or not that succeeds. */
  method DropStage(disk: Disk, root: Path, name: string, files: map<Path, seq<bv8>>)
    requires disk.Valid() && IsStageName(name) && forall p :: p in files ==> IsSlicePath(p)
    modifies disk
    ensures disk.Valid() && disk.history == old(disk.history) + [disk.tree]
    ensures Quiet(root, root + ["bindings", name], files, old(disk.tree), disk.tree)
    ensures disk.failures >= old(disk.failures)
  {
    hide At, Closed, SameOutside, Quiet;
    ghost var t := disk.tree;
    var _ := disk.RemoveAll(root + ["bindings", name]);
    StagingIsQuiet(root, name, files, t, disk.tree);
  }

  ghost predicate OldManifest(root: Path, files: map<Path, seq<bv8>>, t: Tree) {
    MANIFEST in files && At(t, root + MANIFEST) != Content(files[MANIFEST])
  }

  lemma StillOldManifest(root: Path, files: map<Path, seq<bv8>>, t: Tree, u: Tree)
    requires SliceSame(root, files, t, u)
    ensures OldManifest(root, files, t) ==> OldManifest(root, files, u) && ManifestImpliesArtifacts(root, files, u)
  {
    hide At, Content;
  }

  lemma OldManifestDiffers(root: Path, stage: Path, files: map<Path, seq<bv8>>, paths: seq<Path>, data: seq<seq<bv8>>, t: Tree)
    requires InOrder(files, paths, data)
    ensures OldManifest(root, files, t) <==> ManifestDiffers(JobsFor(root, stage, paths), data, t)
    ensures MANIFEST in files
  {
    hide At, Content;
    assert paths[|paths| - 1] in paths;
  }

  /** Replaces the slice by the staged files. */
  method ReplaceSlice(disk: Disk, root: Path, name: string, files: map<Path, seq<bv8>>, paths: seq<Path>, data: seq<seq<bv8>>)
    returns (result: SliceResult, ghost past: seq<Tree>)
    requires disk.Valid() && IsStageName(name)
    requires InOrder(files, paths, data) && NoRepeats(paths) && forall p :: p in files ==> IsSlicePath(p)
    requires forall i :: 0 <= i < |data| ==> At(disk.tree, StagePath(root + ["bindings", name], "new", i)) == Content(data[i])
    modifies disk
    ensures disk.Valid() && disk.history == old(disk.history) + past
    ensures result == SliceResult.Written ==> SliceIs(root, files, disk.tree)
    ensures result == Unchanged ==> SliceSame(root, files, old(disk.tree), disk.tree)
    ensures CarefulThroughout(root, root + ["bindings", name], files, paths, old(disk.tree), BeforeCleanup(past, result))
    ensures result == SliceResult.Written ==> past != []
    ensures RestKept(root, root + ["bindings", name], files, old(disk.tree), disk.tree)
    ensures result != SliceResult.Written ==> Careful(root, root + ["bindings", name], files, paths, old(disk.tree), disk.tree)
    ensures OldManifest(root, files, old(disk.tree)) ==> MANIFEST in files && NeverAhead(root, files, past)
    ensures disk.failures >= old(disk.failures) && (result != SliceResult.Written ==> disk.failures > old(disk.failures))
  {
    hide At, Content, Closed, NoRepeats, IsSlicePath, JobsApart, NothingLost, OnlyJobs, SafeThroughout, AlwaysManifestLast, ManifestDiffers,
         SliceIs, SliceSame, NeverAhead, ManifestImpliesArtifacts, SameOutside, IsStageName, StagePath, OldManifest, InOrder, RestKept,
         CarefulThroughout;
    ghost var t := disk.tree;
    var stage := root + ["bindings", name];
    var jobs := JobsFor(root, stage, paths);
    PathsAllowed(files, paths, data);
    SameFiles(files, paths, data);
    JobsForApart(root, name, paths);
    OldManifestDiffers(root, stage, files, paths, data, t);
    var outcome;
    outcome, past := Write(disk, jobs, data);
    WritingIsCareful(root, stage, files, paths, t, past);
    OnlyJobsIsNotRest(root, stage, files, paths, t, disk.tree);
    if OldManifest(root, files, t) {
      WritingNeverAhead(root, stage, files, paths, data, past);
    }
    if outcome.Retained() {
      return BackupsRetained, past;
    }
    ghost var t1 := disk.tree;
    DropStage(disk, root, name, files);
    RestKeptTransitive(root, stage, files, t, t1, disk.tree);
    AllJobs(root, stage, files, paths, data, t, t1);
    SameManifest(root, files, t1, disk.tree, disk.tree);
    if OldManifest(root, files, t) {
      AfterCleanup(root, files, t, t1, disk.tree, outcome == Committed);
      NeverAheadConcat(root, files, past, [disk.tree]);
    }
    if outcome == Committed {
      result := SliceResult.Written;
      assert (past + [disk.tree])[..|past|] == past;
    } else {
      result := Unchanged;
      SameManifest(root, files, t, t1, disk.tree);
      QuietIsCareful(root, stage, files, paths, t, [disk.tree]);
      CarefulConcat(root, stage, files, paths, t, past, [disk.tree]);
      CarefulOne(root, stage, files, paths, t, disk.tree);
    }
    past := past + [disk.tree];
  }

  lemma CarefulOne(root: Path, stage: Path, files: map<Path, seq<bv8>>, paths: seq<Path>, t0: Tree, t: Tree)
    requires CarefulThroughout(root, stage, files, paths, t0, [t])
    ensures Careful(root, stage, files, paths, t0, t)
  {
    hide Careful;
    assert [t][0] == t;
  }

  /** Without the stage the manifest is not early either: the slice is new or old. */
  lemma AfterCleanup(root: Path, files: map<Path, seq<bv8>>, t: Tree, t1: Tree, u: Tree, written: bool)
    requires OldManifest(root, files, t) && SliceSame(root, files, t1, u)
    requires if written then SliceIs(root, files, t1) else SliceSame(root, files, t, t1)
    ensures MANIFEST in files && NeverAhead(root, files, [u])
  {
    hide At, Content;
    SameManifest(root, files, t1, u, u);
    if !written {
      SameManifest(root, files, t, t1, u);
      StillOldManifest(root, files, t, u);
    }
    OldManifestIsListed(root, files, t);
    NeverAheadOne(root, files, u);
  }

  lemma PathsAllowed(files: map<Path, seq<bv8>>, paths: seq<Path>, data: seq<seq<bv8>>)
    requires InOrder(files, paths, data) && forall p :: p in files ==> IsSlicePath(p)
    ensures |data| == |paths| > 0 && forall p :: p in paths ==> IsSlicePath(p)
  {
    hide IsSlicePath;
  }

  lemma Planned(files: map<Path, seq<bv8>>, sorted: seq<Path>, paths: seq<Path>, data: seq<seq<bv8>>)
    requires paths == WithoutManifest(sorted) + [MANIFEST]
    requires (forall p :: p in paths <==> p in files) && |data| == |paths|
    requires forall i :: 0 <= i < |paths| ==> data[i] == files[paths[i]]
    ensures InOrder(files, paths, data)
  {
  }

  /** The steps before anything is replaced: the stage is made and filled. */
  method PrepareSlice(disk: Disk, root: Path, name: string, files: map<Path, seq<bv8>>, data: seq<seq<bv8>>)
    returns (ok: bool, ghost past: seq<Tree>)
    requires disk.Valid() && IsStageName(name) && forall p :: p in files ==> IsSlicePath(p)
    modifies disk
    ensures disk.Valid() && disk.history == old(disk.history) + past
    ensures forall k :: 0 <= k < |past| ==> Quiet(root, root + ["bindings", name], files, old(disk.tree), past[k])
    ensures Quiet(root, root + ["bindings", name], files, old(disk.tree), disk.tree) && past != []
    ensures ok ==> forall i :: 0 <= i < |data| ==>
      At(disk.tree, StagePath(root + ["bindings", name], "new", i)) == Content(data[i])
    ensures disk.failures >= old(disk.failures) && (!ok ==> disk.failures > old(disk.failures))
  {
    hide At, Content, Closed, IsSlicePath, SliceSame, RestKept, SameOutside, IsStageName, StagePath, AddsDirectories;
    ghost var t, h := disk.tree, disk.history;
    var stage := root + ["bindings", name];
    ok := disk.MkdirAll(stage);
    ghost var t1 := disk.tree;
    StageMade(root, name, files, t, t1);
    StageMadeIsNotRest(root, stage, files, t, t1);
    past := [t1];
    if !ok {
      return;
    }
    ghost var more;
    ok, more := StageFiles(disk, stage, data);
    AllStagingIsQuiet(root, name, files, t, t1, more);
    StagingIsQuiet(root, name, files, t1, disk.tree);
    QuietTransitive(root, stage, files, t, t1, disk.tree);
    Chain(h, past, h + [t1], more, disk.history);
    past := past + more;
    if !ok {
      ghost var t2, h2 := disk.tree, disk.history;
      DropStage(disk, root, name, files);
      QuietTransitive(root, stage, files, t, t2, disk.tree);
      Chain(h, past, h2, [disk.tree], disk.history);
      past := past + [disk.tree];
    }
  }

  lemma OldManifestIsListed(root: Path, files: map<Path, seq<bv8>>, t: Tree)
    ensures OldManifest(root, files, t) ==> MANIFEST in files && At(t, root + MANIFEST) != Content(files[MANIFEST])
  {
  }

  /** Validates, stages, replaces and disposes of the stage, which is kept exactly
      when some original could not be put back. */
  method WriteSlice(disk: Disk, root: Path, name: string, files: map<Path, seq<bv8>>, sorted: seq<Path>, owned: set<Path>)
    returns (result: SliceResult, ghost paths: seq<Path>, ghost past: seq<Tree>)
    requires disk.Valid() && IsStageName(name)
    requires NoRepeats(sorted) && forall p :: p in sorted <==> p in files
    modifies disk
    ensures disk.Valid() && disk.history == old(disk.history) + past
    ensures result != SliceResult.Written ==> disk.failures > old(disk.failures) || !IsAcceptedSlice(old(disk.tree), root, files, owned)
    ensures past != [] || result == SliceResult.Written ==> IsAcceptedSlice(old(disk.tree), root, files, owned)
    ensures result == SliceResult.Written ==> SliceIs(root, files, disk.tree)
    ensures result == Unchanged ==> SliceSame(root, files, old(disk.tree), disk.tree)
    ensures past != [] ==> forall p :: p in files <==> p in paths
    ensures CarefulThroughout(root, root + ["bindings", name], files, paths, old(disk.tree), BeforeCleanup(past, result))
    ensures RestKept(root, root + ["bindings", name], files, old(disk.tree), disk.tree)
    ensures result == BackupsRetained ==>
      past != [] && Careful(root, root + ["bindings", name], files, paths, old(disk.tree), disk.tree)
    ensures OldManifest(root, files, old(disk.tree)) ==> MANIFEST in files && NeverAhead(root, files, past)
    ensures past == [] ==> disk.tree == old(disk.tree)
  {
    hide At, Content, Closed, NoRepeats, IsSlicePath, NothingLost, SliceIs, SliceSame, NeverAhead, ManifestImpliesArtifacts, IsStageName,
         StagePath, WithoutManifest, OldManifest, InOrder, JobFor, RestKept, CarefulThroughout, MayReplace;
    ghost var t, h := disk.tree, disk.history;
    var stage := root + ["bindings", name];
    var ok, ordered, data := Plan(files, sorted);
    paths, past := ordered, [];
    SameSlice(root, files, t);
    RestKeptSelf(root, stage, files, t);
    NoTreesNeverAhead(root, files, t);
    NoTreesCareful(root, stage, files, paths, t);
    if !ok {
      return Unchanged, paths, past;
    }
    ok := CheckDestinations(disk, root, sorted, owned);
    if !ok {
      return Unchanged, paths, past;
    }
    Planned(files, sorted, ordered, data);
    SameFiles(files, paths, data);
    ok, past := PrepareSlice(disk, root, name, files, data);
    QuietIsCareful(root, stage, files, paths, t, past);
    if OldManifest(root, files, t) {
      QuietNeverAhead(root, stage, files, t, past);
    }
    ghost var t1, h1 := disk.tree, disk.history;
    if !ok {
      return Unchanged, paths, past;
    }
    ghost var more;
    result, more := ReplaceSlice(disk, root, name, files, ordered, data);
    SameManifest(root, files, t, t1, disk.tree);
    StillOldManifest(root, files, t, t1);
    CarefulSinceBefore(root, stage, files, paths, t, t1, disk.tree);
    AllCarefulSinceBefore(root, stage, files, paths, t, t1, BeforeCleanup(more, result));
    CarefulConcat(root, stage, files, paths, t, past, BeforeCleanup(more, result));
    BeforeCleanupConcat(past, more, result);
    if OldManifest(root, files, t) {
      NeverAheadConcat(root, files, past, more);
    }
    Chain(h, past, h1, more, disk.history);
    past := past + more;
  }

  lemma BeforeCleanupConcat(past: seq<Tree>, more: seq<Tree>, result: SliceResult)
    requires result == SliceResult.Written ==> more != []
    ensures past + BeforeCleanup(more, result) == BeforeCleanup(past + more, result)
  {
  }

  lemma NoTreesCareful(root: Path, stage: Path, files: map<Path, seq<bv8>>, paths: seq<Path>, t: Tree)
    ensures CarefulThroughout(root, stage, files, paths, t, [])
  {
  }

  lemma SameFiles(files: map<Path, seq<bv8>>, paths: seq<Path>, data: seq<seq<bv8>>)
    requires InOrder(files, paths, data)
    ensures forall p :: p in files <==> p in paths
  {
  }

  lemma NoTreesNeverAhead(root: Path, files: map<Path, seq<bv8>>, t: Tree)
    ensures OldManifest(root, files, t) ==> MANIFEST in files && NeverAhead(root, files, [])
  {
  }
}

