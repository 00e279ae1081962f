/** The end of a generation run: which staged products replace which parts of
    the tree, and when the staging directory may be deleted.
 */
module Generation {
  import opened FileTree
  import opened Disks
  import opened Sequences
  import opened SlicePaths
  import opened Transaction
  import Decimal

  datatype Target = Target(path: Path, dir: bool)

  const GENERATED_BINDINGS: Path := ["bindings", "generated"]
  const GENERATED_BRIDGE: Path := ["bridge", "generated"]
  const REPORTS: seq<Path> :=
    [["coverage", "inventory.json.gz"], ["coverage", "latest.json"], ["coverage", "latest.md"]]

  /** A raw dump may only be a JSON file directly in coverage/raw. */
  predicate SafeRawDumpPath(p: Path) {
    |p| == 3 && p[0] == "coverage" && p[1] == "raw" && |p[2]| >= 5 && p[2][|p[2]| - 5..] == ".json" && '\\' !in p[2]
  }

  // ---- targets ----

  predicate IsTargetPath(p: Path) {
    p == GENERATED_BINDINGS || p == GENERATED_BRIDGE || IsSlicePath(p) || p in REPORTS || SafeRawDumpPath(p)
  }

  /** What every target path looks like; enough to keep any two apart. */
  predicate Shaped(p: Path) {
    || (|p| == 2 && p[0] == "bindings" && p[1] !in ["wdk", "win32", "winrt"])
    || (|p| == 2 && p[0] == "bridge")
    || (|p| == 2 && p[0] == "coverage" && p[1] != "raw")
    || (|p| == 3 && p[0] == "coverage" && p[1] == "raw")
    || (|p| == 4 && p[0] == "bindings" && p[1] in ["wdk", "win32"])
    || (|p| == 5 && p[0] == "bindings" && p[1] == "winrt")
  }

  lemma TargetPathsAreShaped(p: Path)
    requires IsTargetPath(p)
    ensures Shaped(p)
  {
    if p in ARTIFACTS {
      var i :| 0 <= i < |ARTIFACTS| && p == ARTIFACTS[i];
    } else if p in REPORTS {
      var i :| 0 <= i < |REPORTS| && p == REPORTS[i];
    }
  }

  /** No two different targets contain one another. */
  lemma TargetsApart(p: Path, q: Path)
    requires Shaped(p) && Shaped(q) && p != q
    ensures Apart(p, q)
  {
    assert p[0] != q[0] || p[1] != q[1] || |p| == |q|;
  }

  // ---- jobs ----

  /** A name for the staging directory that no target starts with. */
  predicate IsStageName(name: string) {
    name !in ["bindings", "bridge", "coverage"]
  }

  function BackupPath(stage: Path, i: nat): Path {
    stage + ["backups", Decimal.Padded(i, 4)]
  }

  function JobFor(root: Path, stage: Path, target: Target, i: nat): Job {
    Job(root + target.path, stage + target.path, BackupPath(stage, i), target.dir)
  }

  function JobsFor(root: Path, stage: Path, targets: seq<Target>): (jobs: seq<Job>)
    ensures |jobs| == |targets|
    ensures forall i :: 0 <= i < |targets| ==> jobs[i] == JobFor(root, stage, targets[i], i)
  {
    seq(|targets|, i requires 0 <= i < |targets| => JobFor(root, stage, targets[i], i))
  }

  ghost predicate GoodTargets(targets: seq<Target>) {
    && (forall i :: 0 <= i < |targets| ==> Shaped(targets[i].path))
    && (forall i, j :: 0 <= i < j < |targets| ==> targets[i].path != targets[j].path)
  }

  lemma BackupsApart(stage: Path, i: nat, j: nat)
    requires i != j
    ensures Apart(BackupPath(stage, i), BackupPath(stage, j))
  {
    Decimal.PaddedDenotes(i, 4);
    Decimal.PaddedDenotes(j, 4);
    var p, q := ["backups", Decimal.Padded(i, 4)], ["backups", Decimal.Padded(j, 4)];
    assert p[1] != q[1];
    ApartUnder(stage, p, q);
  }

  /** A destination, a staged product and a backup never contain one another. */
  lemma PlacesApart(root: Path, name: string, p: Path, q: Path, i: nat)
    requires IsStageName(name) && Shaped(p) && Shaped(q)
    ensures Apart(root + p, root + [name] + q)
    ensures Apart(root + p, BackupPath(root + [name], i))
    ensures Apart(root + [name] + p, BackupPath(root + [name], i))
  {
    assert root + [name] + q == root + ([name] + q);
    assert BackupPath(root + [name], i) == root + [name, "backups", Decimal.Padded(i, 4)];
    assert ([name] + q)[0] == name && p[0] != name;
    ApartUnder(root, p, [name] + q);
    ApartUnder(root, p, [name, "backups", Decimal.Padded(i, 4)]);
    ApartUnder(root + [name], p, ["backups", Decimal.Padded(i, 4)]);
  }

  lemma JobApartFor(root: Path, name: string, target: Target, i: nat)
    requires IsStageName(name) && Shaped(target.path)
    ensures JobApart(JobFor(root, root + [name], target, i))
  {
    hide Apart;
    PlacesApart(root, name, target.path, target.path, i);
  }

  lemma JobsClear(root: Path, name: string, a: Target, b: Target, i: nat, j: nat)
    requires IsStageName(name) && Shaped(a.path) && Shaped(b.path) && a.path != b.path && i != j
    ensures var job, other := JobFor(root, root + [name], a, i), JobFor(root, root + [name], b, j);
      ClearOf(job, other.dest) && ClearOf(job, other.source) && ClearOf(job, other.backup)
  {
    hide BackupPath, Within;
    PlacesApart(root, name, a.path, b.path, j);
    PlacesApart(root, name, b.path, a.path, i);
    BackupsApart(root + [name], i, j);
    TargetsApart(a.path, b.path);
    ApartUnder(root, a.path, b.path);
    ApartUnder(root + [name], a.path, b.path);
  }

  lemma JobsForApart(root: Path, name: string, targets: seq<Target>)
    requires IsStageName(name) && GoodTargets(targets)
    ensures JobsApart(JobsFor(root, root + [name], targets))
  {
    hide Apart, Shaped, IsStageName, BackupPath, JobApart, ClearOf, JobFor;
    var jobs := JobsFor(root, root + [name], targets);
    forall i | 0 <= i < |jobs|
      ensures JobApart(jobs[i])
    {
      JobApartFor(root, name, targets[i], i);
    }
    forall i, j | 0 <= i < |jobs| && 0 <= j < |jobs| && i != j
      ensures ClearOf(jobs[i], jobs[j].dest) && ClearOf(jobs[i], jobs[j].source) && ClearOf(jobs[i], jobs[j].backup)
    {
      assert targets[i].path != targets[j].path;
      JobsClear(root, name, targets[i], targets[j], i, j);
    }
  }

  // ---- the list of targets ----

  /** The targets in the order in which they are replaced: generated trees that
      were staged, slice files with the manifest last, reports, raw dumps. */
  function TargetPaths(staged: seq<Path>, slice: seq<Path>, raw: seq<Path>): seq<Path> {
    staged + slice + [MANIFEST] + REPORTS + raw
  }

  /** Which of the five parts of the list a path belongs to. */
  function Part(p: Path): nat {
    if |p| > 3 then 1
    else if p == MANIFEST then 2
    else if |p| == 2 && p[0] == "coverage" then 3
    else if |p| == 3 then 4
    else 0
  }

  lemma PartOf(p: Path)
    ensures p == GENERATED_BINDINGS || p == GENERATED_BRIDGE ==> Part(p) == 0
    ensures p in ARTIFACTS ==> Part(p) == 1
    ensures p in REPORTS ==> Part(p) == 3
    ensures SafeRawDumpPath(p) ==> Part(p) == 4
  {
    if p in ARTIFACTS {
      var i :| 0 <= i < |ARTIFACTS| && p == ARTIFACTS[i];
    } else if p in REPORTS {
      var i :| 0 <= i < |REPORTS| && p == REPORTS[i];
    }
  }

  lemma NextPart(a: seq<Path>, b: seq<Path>, part: nat)
    requires NoRepeats(a) && forall p :: p in a ==> Part(p) < part
    requires NoRepeats(b) && forall p :: p in b ==> Part(p) == part
    ensures NoRepeats(a + b) && forall p :: p in a + b ==> Part(p) <= part
  {
    hide Part;
    forall i, j | 0 <= i < j < |a + b|
      ensures (a + b)[i] != (a + b)[j]
    {
      if i < |a| <= j {
        assert a[i] in a && b[j - |a|] in b;
      }
    }
  }

  ghost predicate GoodParts(staged: seq<Path>, slice: seq<Path>, raw: seq<Path>) {
    && NoRepeats(staged) && (forall p :: p in staged ==> p == GENERATED_BINDINGS || p == GENERATED_BRIDGE)
    && NoRepeats(slice) && (forall p :: p in slice ==> p in ARTIFACTS)
    && NoRepeats(raw) && (forall p :: p in raw ==> SafeRawDumpPath(p))
  }

  /** The list holds no target twice. */
  lemma TargetPathsNoRepeats(staged: seq<Path>, slice: seq<Path>, raw: seq<Path>)
    requires GoodParts(staged, slice, raw)
    ensures NoRepeats(TargetPaths(staged, slice, raw))
  {
    assert NoRepeats(REPORTS);
    assert Part(MANIFEST) == 2;
    hide Part, ARTIFACTS, REPORTS, SafeRawDumpPath, NoRepeats;
    forall p {
      PartOf(p);
    }
    assert NoRepeats([MANIFEST]) by {
      SingleNoRepeats(MANIFEST);
    }
    NextPart(staged, slice, 1);
    NextPart(staged + slice, [MANIFEST], 2);
    NextPart(staged + slice + [MANIFEST], REPORTS, 3);
    NextPart(staged + slice + [MANIFEST] + REPORTS, raw, 4);
  }

  lemma SingleNoRepeats(p: Path)
    ensures NoRepeats([p])
  {
  }

  lemma TargetPathsShaped(staged: seq<Path>, slice: seq<Path>, raw: seq<Path>)
    requires GoodParts(staged, slice, raw)
    ensures forall p :: p in TargetPaths(staged, slice, raw) ==> Shaped(p)
  {
    hide Shaped, ARTIFACTS, REPORTS;
    forall p | p in TargetPaths(staged, slice, raw)
      ensures Shaped(p)
    {
      TargetPathsAreShaped(p);
    }
  }

  // ---- one run ----

  /** The generated trees that were staged. */
  function StagedIn(t: Tree, stage: Path): seq<Path> {
    (if stage + GENERATED_BINDINGS in t then [GENERATED_BINDINGS] else []) + if stage + GENERATED_BRIDGE in t then [GENERATED_BRIDGE] else []
  }

  /** The targets of a run, the staged trees first. */
  function TargetList(t: Tree, stage: Path, reviewed: seq<Path>, raw: seq<Path>): (targets: seq<Target>)
    ensures |targets| == |TargetPaths(StagedIn(t, stage), WithoutManifest(reviewed), raw)|
    ensures forall i :: 0 <= i < |targets| ==>
      targets[i] == Target(TargetPaths(StagedIn(t, stage), WithoutManifest(reviewed), raw)[i], i < |StagedIn(t, stage)|)
  {
    var paths := TargetPaths(StagedIn(t, stage), WithoutManifest(reviewed), raw);
    seq(|paths|, i requires 0 <= i < |paths| => Target(paths[i], i < |StagedIn(t, stage)|))
  }

  /** What the list holds, said of each path. */
  predicate IsListed(t: Tree, stage: Path, reviewed: seq<Path>, raw: seq<Path>, target: Target) {
    if target.dir then
      target.path in [["bindings", "generated"], ["bridge", "generated"]] && stage + target.path in t
    else
      IsPlain(reviewed, raw, target.path)
  }

  /** The files of the list: the reviewed ones with the manifest, reports, raw dumps. */
  predicate IsPlain(reviewed: seq<Path>, raw: seq<Path>, p: Path) {
    || p == ["bindings", "slice.manifest.json"] || p in reviewed || p in raw
    || p in [["coverage", "inventory.json.gz"], ["coverage", "latest.json"], ["coverage", "latest.md"]]
  }

  lemma StagedTreesAre(t: Tree, stage: Path, p: Path)
    ensures p in StagedIn(t, stage) <==> p in [["bindings", "generated"], ["bridge", "generated"]] && stage + p in t
  {
  }

  lemma TargetPathsAre(staged: seq<Path>, slice: seq<Path>, raw: seq<Path>, i: nat)
    requires i < |TargetPaths(staged, slice, raw)|
    ensures var paths := TargetPaths(staged, slice, raw);
      && (i < |staged| ==> paths[i] in staged)
      && (i >= |staged| ==> IsPlain(slice, raw, paths[i]))
  {
    assert TargetPaths(staged, slice, raw) == staged + (slice + [MANIFEST] + REPORTS + raw);
  }

  lemma PlainIsThere(staged: seq<Path>, slice: seq<Path>, raw: seq<Path>, p: Path) returns (i: nat)
    requires IsPlain(slice, raw, p)
    ensures var paths := TargetPaths(staged, slice, raw); |staged| <= i < |paths| && paths[i] == p
  {
    var rest := slice + [MANIFEST] + REPORTS + raw;
    assert TargetPaths(staged, slice, raw) == staged + rest;
    assert p in rest;
    var k :| 0 <= k < |rest| && rest[k] == p;
    i := |staged| + k;
  }

  /** Every target is listed and everything listed is a target. */
  lemma TargetsAre(t: Tree, stage: Path, reviewed: seq<Path>, raw: seq<Path>, target: Target)
    ensures target in TargetList(t, stage, reviewed, raw) <==> IsListed(t, stage, reviewed, raw, target)
  {
    var staged, slice := StagedIn(t, stage), WithoutManifest(reviewed);
    var paths, targets := TargetPaths(staged, slice, raw), TargetList(t, stage, reviewed, raw);
    StagedTreesAre(t, stage, target.path);
    assert IsPlain(slice, raw, target.path) <==> IsPlain(reviewed, raw, target.path);
    hide StagedIn, IsPlain;
    if target in targets {
      var i :| 0 <= i < |targets| && targets[i] == target;
      TargetPathsAre(staged, slice, raw, i);
    }
    if IsListed(t, stage, reviewed, raw, target) {
      if target.dir {
        var i :| 0 <= i < |staged| && staged[i] == target.path;
        assert paths == staged + (slice + [MANIFEST] + REPORTS + raw);
        assert targets[i] == target;
      } else {
        var i := PlainIsThere(staged, slice, raw, target.path);
        assert targets[i] == target;
      }
    }
  }

  /** The manifest stands behind all other slice files. */
  ghost predicate ManifestBehind(targets: seq<Target>, reviewed: seq<Path>) {
    forall i, j :: 0 <= i < |targets| && targets[i].path == ["bindings", "slice.manifest.json"] && i < j < |targets| ==>
      targets[j].path !in reviewed
  }

  lemma ManifestIsBehind(t: Tree, stage: Path, reviewed: seq<Path>, raw: seq<Path>)
    requires (forall p :: p in reviewed ==> IsSlicePath(p)) && (forall p :: p in raw ==> SafeRawDumpPath(p))
    ensures ManifestBehind(TargetList(t, stage, reviewed, raw), reviewed)
  {
    var staged, slice := StagedIn(t, stage), WithoutManifest(reviewed);
    var before, behind := staged + slice, REPORTS + raw;
    var paths := TargetPaths(staged, slice, raw);
    assert paths == before + [MANIFEST] + behind;
    hide TargetPaths, TargetList, ARTIFACTS, SafeRawDumpPath, Part;
    forall p {
      PartOf(p);
    }
    assert Part(MANIFEST) == 2 by {
      OfTheManifest();
    }
    hide REPORTS;
    forall k | 0 <= k < |paths|
      ensures k < |before| ==> Part(paths[k]) <= 1
      ensures k > |before| ==> Part(paths[k]) > 2
    {
      if k < |before| {
        assert before[k] in staged || before[k] in slice;
      } else if k > |before| {
        assert behind[k - |before| - 1] in REPORTS || behind[k - |before| - 1] in raw;
      }
    }
  }

  lemma OfTheManifest()
    ensures Part(MANIFEST) == 2
  {
  }

  /** Finds which generated trees were staged. */
  method StagedTrees(disk: Disk, stage: Path) returns (ok: bool, staged: seq<Path>)
    modifies disk`failures
    ensures ok ==> staged == StagedIn(disk.tree, stage)
    ensures ok <==> disk.failures == old(disk.failures)
    ensures disk.failures >= old(disk.failures)
  {
    ok, staged := true, [];
    var r := disk.Lstat(stage + GENERATED_BINDINGS);
    if r == Unknown {
      return false, staged;
    }
    if r == Exists {
      staged := staged + [GENERATED_BINDINGS];
    }
    r := disk.Lstat(stage + GENERATED_BRIDGE);
    if r == Unknown {
      return false, staged;
    }
    if r == Exists {
      staged := staged + [GENERATED_BRIDGE];
    }
  }

  /** A staged product is there and of its kind, and would replace nothing of
      another kind. */
  predicate Replaceable(t: Tree, root: Path, stage: Path, path: Path, dir: bool) {
    && stage + path in t && (t[stage + path] == Directory) == dir
    && (root + path in t ==> (t[root + path] == Directory) == dir)
  }

  /** The reviewed files are the slice, and every target is replaceable and replaces
      only what is recognised as generated: owned tells which existing targets are. */
  predicate Acceptable(t: Tree, root: Path, stage: Path, targets: seq<Target>, reviewed: seq<Path>, owned: set<Path>) {
    && |reviewed| == |ARTIFACTS| + 1 && (forall p :: p in reviewed ==> IsSlicePath(p))
    && forall i :: 0 <= i < |targets| ==> IsAcceptable(t, root, stage, targets[i], owned)
  }

  predicate IsAcceptable(t: Tree, root: Path, stage: Path, target: Target, owned: set<Path>) {
    Replaceable(t, root, stage, target.path, target.dir) && (root + target.path in t ==> target.path in owned)
  }

  /** Checks every destination before anything is changed. */
  method Preflight(disk: Disk, root: Path, stage: Path, targets: seq<Target>, reviewed: seq<Path>, owned: set<Path>) returns (ok: bool)
    modifies disk`failures
    ensures ok ==> Acceptable(disk.tree, root, stage, targets, reviewed, owned)
    ensures !ok ==> disk.failures > old(disk.failures) || !Acceptable(disk.tree, root, stage, targets, reviewed, owned)
    ensures disk.failures >= old(disk.failures)
  {
    hide IsSlicePath, ARTIFACTS;
    if |reviewed| != |ARTIFACTS| + 1 {
      return false;
    }
    for i := 0 to |reviewed|
      invariant forall k :: 0 <= k < i ==> IsSlicePath(reviewed[k])
    {
      if !IsSlicePath(reviewed[i]) {
        return false;
      }
    }
    for i := 0 to |targets|
      invariant disk.failures >= old(disk.failures)
      invariant forall k :: 0 <= k < i ==> IsAcceptable(disk.tree, root, stage, targets[k], owned)
    {
      var t := targets[i];
      var source, dest := stage + t.path, root + t.path;
      var staged := disk.Lstat(source);
      if staged == Unknown {
        return false;
      }
      if staged != Exists || (disk.tree[source] == Directory) != t.dir {
        assert !IsAcceptable(disk.tree, root, stage, t, owned);
        return false;
      }
      var existing := disk.Lstat(dest);
      if existing == Unknown {
        return false;
      }
      if existing == Exists {
        if (disk.tree[dest] == Directory) != t.dir || t.path !in owned {
          assert !IsAcceptable(disk.tree, root, stage, t, owned);
          return false;
        }
      }
      assert IsAcceptable(disk.tree, root, stage, t, owned);
    }
    return true;
  }

  datatype RunResult = Generated | Unchanged | BackupsRetained

  /** q lies above a target, as a directory on the way to it. */
  ghost predicate AboveTarget(root: Path, targets: seq<Target>, q: Path) {
    exists i :: 0 <= i < |targets| && Within(root + targets[i].path, q) && q != root + targets[i].path
  }

  /** What was at q is there; where nothing was, there is nothing, or a directory on
      the way to a target. */
  ghost predicate KeptAt(t0: Tree, t: Tree, root: Path, targets: seq<Target>, q: Path) {
    && (q in t0 ==> q in t && t[q] == t0[q])
    && (q in t && q !in t0 ==> t[q] == Directory && AboveTarget(root, targets, q))
  }

  /** Everything outside the stage is as it was, except that directories on the
      way to targets may have been made. */
  ghost predicate TreeUnchanged(t0: Tree, t: Tree, root: Path, stage: Path, targets: seq<Target>) {
    forall q :: !Within(q, stage) ==> KeptAt(t0, t, root, targets, q)
  }

  /** The same of everything outside the stage and the targets. */
  ghost predicate RestUnchanged(t0: Tree, t: Tree, root: Path, stage: Path, targets: seq<Target>) {
    forall q :: !Within(q, stage) && OutsideTargets(root, targets, q) ==> KeptAt(t0, t, root, targets, q)
  }

  ghost predicate OutsideTargets(root: Path, targets: seq<Target>, q: Path) {
    forall i :: 0 <= i < |targets| ==> !Within(q, root + targets[i].path)
  }

  lemma AgreeWithin(t: Tree, u: Tree, p: Path, q: Path)
    requires At(t, p) == At(u, p) && Within(q, p)
    ensures Agree(t, u, q)
  {
    assert q == p + q[|p|..];
    var s := q[|p|..];
    Contents(t, p);
    Contents(u, p);
    assert s in At(t, p) <==> q in t;
    assert s in At(u, p) <==> q in u;
  }

  lemma OutsideStage(root: Path, name: string, targets: seq<Target>, q: Path)
    requires !Within(q, root + [name]) && OutsideTargets(root, targets, q)
    ensures Outside(JobsFor(root, root + [name], targets), q)
  {
    var stage := root + [name];
    var jobs := JobsFor(root, stage, targets);
    forall i | 0 <= i < |jobs|
      ensures OutsideJob(jobs[i], q)
    {
      assert stage <= jobs[i].source && stage <= jobs[i].backup;
    }
  }

  /** Everything on the way to a backup exists already, up to the stage. */
  lemma OnTheWayToBackup(t0: Tree, stage: Path, i: nat, q: Path)
    requires Closed(t0) && stage in t0
    ensures Within(BackupPath(stage, i), q) && !Within(q, stage) ==> q in t0
  {
    var backup := BackupPath(stage, i);
    if Within(backup, q) && !Within(q, stage) {
      assert q == backup[..|q|] && stage == backup[..|stage|];
      assert q == stage[..|q|];
    }
  }

  lemma SparedMeansKept(root: Path, name: string, targets: seq<Target>, t0: Tree, t: Tree, q: Path)
    requires Closed(t0) && root + [name] in t0 && !Within(q, root + [name]) && OutsideTargets(root, targets, q)
    requires SparedByAll(JobsFor(root, root + [name], targets), t0, t, q)
    ensures KeptAt(t0, t, root, targets, q)
  {
    hide Closed;
    var jobs := JobsFor(root, root + [name], targets);
    forall i | 0 <= i < |jobs|
      ensures OnTheWay(jobs[i], q) ==> q in t0 || (Within(root + targets[i].path, q) && q != root + targets[i].path)
    {
      assert !Within(q, root + targets[i].path);
      OnTheWayToBackup(t0, root + [name], i, q);
    }
  }

  /** Working on the targets changes nothing outside them and the stage. */
  lemma OnlyTargetsChange(root: Path, name: string, targets: seq<Target>, t0: Tree, t: Tree)
    requires Closed(t0) && root + [name] in t0
    requires OnlyJobs(JobsFor(root, root + [name], targets), t0, t)
    ensures RestUnchanged(t0, t, root, root + [name], targets)
  {
    hide Within, SparedByAll, KeptAt, OutsideTargets, Outside, Closed;
    forall q | !Within(q, root + [name]) && OutsideTargets(root, targets, q)
      ensures KeptAt(t0, t, root, targets, q)
    {
      OutsideStage(root, name, targets, q);
      SparedMeansKept(root, name, targets, t0, t, q);
    }
  }

  /** A failed commit that undid everything left everything outside the stage
      alone, at the targets and elsewhere. */
  lemma UndoneMeansUnchanged(root: Path, name: string, targets: seq<Target>, t0: Tree, t: Tree)
    requires Closed(t0) && root + [name] in t0
    requires OnlyJobs(JobsFor(root, root + [name], targets), t0, t)
    requires AllOrNothing(JobsFor(root, root + [name], targets), t0, t, Failed({}))
    ensures TreeUnchanged(t0, t, root, root + [name], targets)
  {
    hide At, Within, Closed, OnlyJobs, AboveTarget;
    OnlyTargetsChange(root, name, targets, t0, t);
    forall q | !Within(q, root + [name])
      ensures KeptAt(t0, t, root, targets, q)
    {
      if i :| 0 <= i < |targets| && Within(q, root + targets[i].path) {
        AgreeWithin(t0, t, root + targets[i].path, q);
      } else {
        assert OutsideTargets(root, targets, q);
      }
    }
  }

  /** Deleting the stage changes nothing outside it. */
  lemma WithoutStage(t0: Tree, t: Tree, u: Tree, root: Path, stage: Path, targets: seq<Target>)
    requires SameOutside(t, u, stage)
    ensures TreeUnchanged(t0, t, root, stage, targets) ==> TreeUnchanged(t0, u, root, stage, targets)
    ensures RestUnchanged(t0, t, root, stage, targets) ==> RestUnchanged(t0, u, root, stage, targets)
  {
    hide Within, AboveTarget, OutsideTargets;
    forall q | !Within(q, stage)
      ensures KeptAt(t0, t, root, targets, q) ==> KeptAt(t0, u, root, targets, q)
    {
      assert Agree(t, u, q);
    }
  }

  /** A tree that a failed commit may leave when it has undone everything. */
  ghost predicate Undone(jobs: seq<Job>, t0: Tree, t: Tree) {
    Closed(t) && OnlyJobs(jobs, t0, t) && AllOrNothing(jobs, t0, t, Failed({}))
  }

  /** If no target's directory must be made, a commit that was undone leaves every
      path outside the stage as it was. */
  lemma UndoneIsExact(root: Path, name: string, targets: seq<Target>, t0: Tree, t: Tree)
    requires Closed(t0) && root + [name] in t0 && IsStageName(name) && GoodTargets(targets)
    requires Undone(JobsFor(root, root + [name], targets), t0, t)
    requires forall i :: 0 <= i < |targets| ==> !MustBeMade(t0, root + targets[i].path)
    ensures SameOutside(t0, t, root + [name])
  {
    UndoneMeansUnchanged(root, name, targets, t0, t);
    hide OnlyJobs, AllOrNothing, Closed, MustBeMade, Within, IsStageName, Shaped;
    forall q | !Within(q, root + [name])
      ensures Agree(t0, t, q)
    {
      assert KeptAt(t0, t, root, targets, q);
      if q in t && q !in t0 {
        var i :| 0 <= i < |targets| && Within(root + targets[i].path, q) && q != root + targets[i].path;
        WayOutsideStage(root, name, targets[i].path);
        assert forall r :: Within(root + targets[i].path, r) && r in t0 ==> KeptAt(t0, t, root, targets, r);
        OnTheWayWasThere(t0, t, root + targets[i].path, q);
      }
    }
  }

  lemma WayOutsideStage(root: Path, name: string, p: Path)
    requires IsStageName(name) && Shaped(p)
    ensures forall r :: Within(root + p, r) ==> !Within(r, root + [name])
  {
    StageApart(root, name, p);
  }

  /** A target's directory that must be made may stay behind: it is made, the product
      cannot be renamed, and the rest is undone. */
  lemma MadeDirectoryStays(root: Path, name: string, targets: seq<Target>, t0: Tree, i: nat)
    requires Closed(t0) && root + [name] in t0 && IsStageName(name) && GoodTargets(targets)
    requires i < |targets| && MustBeMade(t0, root + targets[i].path)
    ensures var dest := root + targets[i].path;
      var parent := dest[..|dest| - 1];
      var t := MakeDirectories(t0, parent, |parent|);
      Undone(JobsFor(root, root + [name], targets), t0, t) && parent in t && !Within(parent, root + [name])
  {
    assert |targets[i].path| > 0;
    hide At, AddsDirectories, Shaped, IsStageName, BackupPath, JobApart, ClearOf, OnlyJob, OnlyJobs;
    var stage, dest := root + [name], root + targets[i].path;
    var parent := dest[..|dest| - 1];
    var t, jobs := MakeDirectories(t0, parent, |parent|), JobsFor(root, stage, targets);
    MakeDirectoriesEffect(t0, parent, |parent|);
    assert parent[..|parent|] == parent;
    JobsForApart(root, name, targets);
    MkdirIsOnlyJob(jobs[i], t0, t, dest);
    SafeAtFirst(jobs, t0);
    OnlyJobsAfter(jobs, i, t0, t0, t);
    forall k | 0 <= k < |jobs|
      ensures At(t, jobs[k].dest) == At(t0, jobs[k].dest)
    {
      NotAbove(jobs, i, k);
      AddsDirectoriesKeeps(t0, t, parent, jobs[k].dest);
    }
    StageApart(root, name, targets[i].path);
    InsideParent(dest, stage);
  }

  /** A commit that was undone is sure to have left everything outside the stage as it
      was exactly when no target's directory has to be made. */
  lemma UndoneIsExactWhen(root: Path, name: string, targets: seq<Target>, t0: Tree)
    requires Closed(t0) && root + [name] in t0 && IsStageName(name) && GoodTargets(targets)
    ensures (forall t :: Undone(JobsFor(root, root + [name], targets), t0, t) ==> SameOutside(t0, t, root + [name]))
       <==> (forall i :: 0 <= i < |targets| ==> !MustBeMade(t0, root + targets[i].path))
  {
    hide Undone, SameOutside, MustBeMade, GoodTargets, IsStageName, Closed;
    var jobs := JobsFor(root, root + [name], targets);
    if forall i :: 0 <= i < |targets| ==> !MustBeMade(t0, root + targets[i].path) {
      forall t | Undone(jobs, t0, t)
        ensures SameOutside(t0, t, root + [name])
      {
        UndoneIsExact(root, name, targets, t0, t);
      }
    } else {
      var i :| 0 <= i < |targets| && MustBeMade(t0, root + targets[i].path);
      MadeDirectoryStays(root, name, targets, t0, i);
      DiffersOutside(t0, root + targets[i].path, root + [name]);
    }
  }

  lemma JobsForPrefix(root: Path, stage: Path, targets: seq<Target>, n: nat)
    requires n <= |targets|
    ensures JobsFor(root, stage, targets)[..n] == JobsFor(root, stage, targets[..n])
  {
    hide JobFor;
  }

  /** Of a run that stopped after working on the first few targets and undid that: if
      none of these needed its directory made, everything outside the stage is as it
      was. */
  lemma StoppedRunIsExact(root: Path, name: string, targets: seq<Target>, t0: Tree, t: Tree, touched: nat)
    requires Closed(t0) && Closed(t) && root + [name] in t0 && IsStageName(name) && GoodTargets(targets)
    requires OnlyFirst(JobsFor(root, root + [name], targets), touched, t0, t)
    requires AllOrNothing(JobsFor(root, root + [name], targets), t0, t, Failed({}))
    requires forall k :: 0 <= k < touched ==> !MustBeMade(t0, root + targets[k].path)
    ensures SameOutside(t0, t, root + [name])
  {
    hide At, Closed, OnlyJobs, MustBeMade, SameOutside, Shaped, IsStageName, JobFor;
    JobsForPrefix(root, root + [name], targets, touched);
    assert forall k :: 0 <= k < touched ==> JobsFor(root, root + [name], targets)[..touched][k] == JobsFor(root, root + [name], targets)[k];
    UndoneIsExact(root, name, targets[..touched], t0, t);
  }

  /** And a run that started a target whose directory had to be made has left that
      directory behind. */
  lemma StartedRunIsNotExact(root: Path, name: string, targets: seq<Target>, t0: Tree, t: Tree, started: nat, k: nat)
    requires IsStageName(name) && GoodTargets(targets) && Started(JobsFor(root, root + [name], targets), started, t)
    requires k < started && MustBeMade(t0, root + targets[k].path)
    ensures !SameOutside(t0, t, root + [name])
  {
    hide IsStageName, Shaped, Within;
    var jobs, dest := JobsFor(root, root + [name], targets), root + targets[k].path;
    assert HasDirectory(t, jobs[k].dest);
    StageApart(root, name, targets[k].path);
    InsideParent(dest, root + [name]);
    assert !Agree(t0, t, dest[..|dest| - 1]);
  }

  /** What is outside the stage is as it was if no target that was touched needed its
      directory made, and is not if one that was started did. */
  ghost predicate ExactAsFarAs(t0: Tree, t: Tree, root: Path, stage: Path, targets: seq<Target>, started: nat, touched: nat) {
    && started <= touched <= started + 1 && touched <= |targets|
    && ((forall k :: 0 <= k < touched ==> !MustBeMade(t0, root + targets[k].path)) ==> SameOutside(t0, t, stage))
    && ((exists k :: 0 <= k < started && MustBeMade(t0, root + targets[k].path)) ==> !SameOutside(t0, t, stage))
  }

  lemma StoppedRun(root: Path, name: string, targets: seq<Target>, t0: Tree, t: Tree, u: Tree, started: nat, touched: nat)
    requires Closed(t0) && Closed(t) && root + [name] in t0 && IsStageName(name) && GoodTargets(targets)
    requires OnlyFirst(JobsFor(root, root + [name], targets), touched, t0, t) && started <= touched <= started + 1
    requires Started(JobsFor(root, root + [name], targets), started, t)
    requires AllOrNothing(JobsFor(root, root + [name], targets), t0, t, Failed({})) && SameOutside(t, u, root + [name])
    ensures ExactAsFarAs(t0, u, root, root + [name], targets, started, touched)
  {
    SameOutsideBoth(t0, t, u, root + [name]);
    assert touched <= |targets|;
    hide Closed, OnlyFirst, Started, AllOrNothing, MustBeMade, SameOutside, GoodTargets, IsStageName;
    if forall k :: 0 <= k < touched ==> !MustBeMade(t0, root + targets[k].path) {
      StoppedRunIsExact(root, name, targets, t0, t, touched);
    }
    if k :| 0 <= k < started && MustBeMade(t0, root + targets[k].path) {
      StartedRunIsNotExact(root, name, targets, t0, t, started, k);
    }
  }

  lemma SameOutsideBoth(t0: Tree, t: Tree, u: Tree, p: Path)
    requires SameOutside(t, u, p)
    ensures SameOutside(t0, t, p) <==> SameOutside(t0, u, p)
  {
    hide Within;
    forall q | !Within(q, p)
      ensures Agree(t0, t, q) <==> Agree(t0, u, q)
    {
      assert Agree(t, u, q);
    }
  }

  lemma DiffersOutside(t0: Tree, dest: Path, stage: Path)
    requires MustBeMade(t0, dest)
    ensures var parent := dest[..|dest| - 1];
      var t := MakeDirectories(t0, parent, |parent|);
      parent in t && !Within(parent, stage) ==> !SameOutside(t0, t, stage)
  {
    hide MakeDirectories;
    var parent := dest[..|dest| - 1];
    var t := MakeDirectories(t0, parent, |parent|);
    assert parent in t ==> !Agree(t0, t, parent);
  }

  lemma NotAbove(jobs: seq<Job>, i: nat, k: nat)
    requires JobsApart(jobs) && i < |jobs| && k < |jobs|
    ensures |jobs[i].dest| > 0 && !Within(jobs[i].dest[..|jobs[i].dest| - 1], jobs[k].dest)
  {
    assert JobApart(jobs[i]) && (k != i ==> ClearOf(jobs[i], jobs[k].dest));
    InsideParent(jobs[i].dest, jobs[k].dest);
  }

  /** The smallest such tree: a stage with one report, and no directory for reports. */
  function ExampleTree(): Tree {
    map[[] := Directory, ["s"] := Directory, ["s", "coverage"] := Directory, ["s", "coverage", "latest.json"] := File([])]
  }

  function ExampleTargets(): seq<Target> {
    [Target(["coverage", "latest.json"], false)]
  }

  lemma MadeDirectoryExample()
    ensures var t := MakeDirectories(ExampleTree(), ["coverage"], 1);
      && Replaceable(ExampleTree(), [], ["s"], ["coverage", "latest.json"], false)
      && Undone(JobsFor([], ["s"], ExampleTargets()), ExampleTree(), t) && ["coverage"] !in ExampleTree() && ["coverage"] in t
  {
    ExampleIsClosed();
    ExampleMustBeMade();
    ExampleIsReplaceable();
    assert IsStageName("s") && GoodTargets(ExampleTargets());
    hide Replaceable, ExampleTree, Undone, Closed, MakeDirectories, MustBeMade, IsStageName, GoodTargets;
    MadeDirectoryStays([], "s", ExampleTargets(), ExampleTree(), 0);
  }

  lemma ExampleIsClosed()
    ensures Closed(ExampleTree())
  {
    var t0 := ExampleTree();
    forall q, n | q in t0 && 0 <= n < |q|
      ensures q[..n] in t0 && t0[q[..n]] == Directory
    {
      assert n == 0 ==> q[..n] == [];
      assert n == 1 ==> q[..n] == ["s"];
      assert n == 2 ==> q[..n] == ["s", "coverage"];
    }
  }

  lemma ExampleMustBeMade()
    ensures ["coverage"] !in ExampleTree()
    ensures var dest := [] + ExampleTargets()[0].path;
      |dest| == 2 && dest[..|dest| - 1] == ["coverage"] && MustBeMade(ExampleTree(), dest)
  {
    var dest := [] + ExampleTargets()[0].path;
    assert dest == ["coverage", "latest.json"] && dest[..1] == ["coverage"];
    assert ["coverage"][..0] == [] && ["coverage"][..1] == ["coverage"];
  }

  lemma ExampleIsReplaceable()
    ensures [] + ["s"] == ["s"] && ["s"] in ExampleTree()
    ensures Replaceable(ExampleTree(), [], ["s"], ["coverage", "latest.json"], false)
  {
    assert ["s"] + ["coverage", "latest.json"] == ["s", "coverage", "latest.json"];
    assert [] + ["coverage", "latest.json"] == ["coverage", "latest.json"];
  }

  /** Every original content is at its target or in the stage's backups. */
  ghost predicate OriginalsKept(t0: Tree, t: Tree, root: Path, stage: Path, targets: seq<Target>) {
    NothingLost(JobsFor(root, stage, targets), t0, t)
  }

  /** Once everything is back in place, deleting the stage loses nothing. */
  lemma StageMayGo(root: Path, name: string, targets: seq<Target>, t0: Tree, t: Tree, u: Tree)
    requires IsStageName(name) && GoodTargets(targets)
    requires AllOrNothing(JobsFor(root, root + [name], targets), t0, t, Failed({}))
    requires SameOutside(t, u, root + [name])
    ensures OriginalsKept(t0, u, root, root + [name], targets)
  {
    hide At, SameOutside, Within;
    var jobs := JobsFor(root, root + [name], targets);
    forall i | 0 <= i < |jobs|
      ensures Kept(jobs[i], t0, u)
    {
      StageApart(root, name, targets[i].path);
      SameOutsideKeeps(t, u, root + [name], jobs[i].dest);
    }
  }

  lemma StageApart(root: Path, name: string, p: Path)
    requires IsStageName(name) && Shaped(p)
    ensures Apart(root + [name], root + p)
  {
    assert p[0] != name;
    ApartUnder(root, [name], p);
  }

  lemma InstalledIsStaged(root: Path, name: string, targets: seq<Target>, t0: Tree, t: Tree, u: Tree)
    requires IsStageName(name) && GoodTargets(targets)
    requires AllOrNothing(JobsFor(root, root + [name], targets), t0, t, Committed)
    requires SameOutside(t, u, root + [name])
    requires forall i :: 0 <= i < |targets| ==> Replaceable(t0, root, root + [name], targets[i].path, targets[i].dir)
    ensures forall i :: 0 <= i < |targets| ==>
      At(u, root + targets[i].path) == At(t0, root + [name] + targets[i].path) != map[]
  {
    hide At, SameOutside, Within;
    var jobs := JobsFor(root, root + [name], targets);
    forall i | 0 <= i < |targets|
      ensures At(u, root + targets[i].path) == At(t0, root + [name] + targets[i].path) != map[]
    {
      StageApart(root, name, targets[i].path);
      SameOutsideKeeps(t, u, root + [name], jobs[i].dest);
      PresentMeansNonEmpty(t0, root + [name] + targets[i].path);
    }
  }

  lemma NothingPlanned(t0: Tree, t: Tree, root: Path, stage: Path)
    requires SameOutside(t0, t, stage)
    ensures ExactAsFarAs(t0, t, root, stage, [], 0, 0)
    ensures TreeUnchanged(t0, t, root, stage, []) && RestUnchanged(t0, t, root, stage, []) && OriginalsKept(t0, t, root, stage, [])
  {
    forall q | !Within(q, stage)
      ensures Agree(t0, t, q)
    {
    }
  }

  /** What every state of a run promises. */
  ghost predicate Orderly(t0: Tree, t: Tree, root: Path, stage: Path, targets: seq<Target>) {
    OriginalsKept(t0, t, root, stage, targets) && RestUnchanged(t0, t, root, stage, targets)
  }

  lemma SafeMeansOrderly(t0: Tree, past: seq<Tree>, root: Path, name: string, targets: seq<Target>)
    requires Closed(t0) && root + [name] in t0 && SafeThroughout(JobsFor(root, root + [name], targets), t0, past)
    ensures forall k :: 0 <= k < |past| ==> Orderly(t0, past[k], root, root + [name], targets)
  {
    hide NothingLost, OnlyJobs, RestUnchanged, Closed;
    forall k | 0 <= k < |past|
      ensures Orderly(t0, past[k], root, root + [name], targets)
    {
      OnlyTargetsChange(root, name, targets, t0, past[k]);
    }
  }

  /** The run's own raw dumps are safe and its targets acceptable. */
  predicate Accepted(t: Tree, root: Path, stage: Path, reviewed: seq<Path>, raw: seq<Path>, owned: set<Path>) {
    && (forall p :: p in raw ==> SafeRawDumpPath(p))
    && Acceptable(t, root, stage, TargetList(t, stage, reviewed, raw), reviewed, owned)
  }

  /** The raw dumps are safe, the reviewed files are the slice, and everything listed has a
      staged product that may go to its place. */
  ghost predicate MayRun(t: Tree, root: Path, stage: Path, reviewed: seq<Path>, raw: seq<Path>, owned: set<Path>) {
    && (forall p :: p in raw ==> IsDump(p)) && (forall p :: p in reviewed <==> IsSlicePath(p))
    && (forall target :: IsListed(t, stage, reviewed, raw, target) ==> MayGo(t, root, stage, target, owned))
  }

  /** A JSON file directly in coverage/raw. */
  ghost predicate IsDump(p: Path) {
    exists base: string :: p == ["coverage", "raw", base + ".json"] && '\\' !in base
  }

  /** What was staged is of the target's kind, and so is what is there, if anything is, and
      it is recognised. */
  predicate MayGo(t: Tree, root: Path, stage: Path, target: Target, owned: set<Path>) {
    && stage + target.path in t && (t[stage + target.path].Directory? <==> target.dir)
    && (root + target.path in t ==> (t[root + target.path].Directory? <==> target.dir) && target.path in owned)
  }

  lemma DumpsAreSafe(p: Path)
    ensures IsDump(p) <==> SafeRawDumpPath(p)
  {
    if SafeRawDumpPath(p) {
      var name := p[2];
      var base := name[..|name| - 5];
      assert name == base + ".json";
      assert forall c :: c in base ==> c in name;
      assert p == ["coverage", "raw", base + ".json"];
    }
    if base: string :| p == ["coverage", "raw", base + ".json"] && '\\' !in base {
      var name := p[2];
      assert name[|name| - 5..] == ".json";
      assert '\\' !in ".json";
    }
  }

  lemma AcceptableMayGo(t: Tree, root: Path, stage: Path, target: Target, owned: set<Path>)
    ensures IsAcceptable(t, root, stage, target, owned) <==> MayGo(t, root, stage, target, owned)
  {
  }

  /** The checks accept exactly those. */
  lemma AcceptedExactly(t: Tree, root: Path, stage: Path, reviewed: seq<Path>, raw: seq<Path>, owned: set<Path>)
    requires NoRepeats(reviewed)
    ensures Accepted(t, root, stage, reviewed, raw, owned) <==> MayRun(t, root, stage, reviewed, raw, owned)
  {
    hide IsAcceptable, IsListed, SafeRawDumpPath, IsSlicePath, TargetList, ARTIFACTS, IsDump, MayGo;
    var targets := TargetList(t, stage, reviewed, raw);
    forall p {
      DumpsAreSafe(p);
    }
    forall target
      ensures IsAcceptable(t, root, stage, target, owned) <==> MayGo(t, root, stage, target, owned)
    {
      AcceptableMayGo(t, root, stage, target, owned);
    }
    forall target
      ensures target in targets <==> IsListed(t, stage, reviewed, raw, target)
    {
      TargetsAre(t, stage, reviewed, raw, target);
    }
    assert (forall i :: 0 <= i < |targets| ==> IsAcceptable(t, root, stage, targets[i], owned))
      <==> forall target :: target in targets ==> IsAcceptable(t, root, stage, target, owned);
    if |reviewed| == |ARTIFACTS| + 1 && forall p :: p in reviewed ==> IsSlicePath(p) {
      AllSliceFiles(reviewed);
    }
    if forall p :: p in reviewed <==> IsSlicePath(p) {
      HowManySliceFiles(reviewed);
    }
  }

  /** The first n of the paths are trees. */
  method ListTargets(paths: seq<Path>, n: nat) returns (targets: seq<Target>)
    ensures |targets| == |paths| && forall k :: 0 <= k < |paths| ==> targets[k] == Target(paths[k], k < n)
  {
    targets := [];
    for i := 0 to |paths|
      invariant |targets| == i
      invariant forall k :: 0 <= k < i ==> targets[k] == Target(paths[k], k < n)
    {
      targets := targets + [Target(paths[i], i < n)];
    }
  }

  /** Builds the list of targets and checks it. */
  method Plan(disk: Disk, root: Path, name: string, reviewed: seq<Path>, raw: seq<Path>, owned: set<Path>)
    returns (ok: bool, targets: seq<Target>)
    requires NoRepeats(reviewed) && NoRepeats(raw)
    modifies disk`failures
    ensures ok ==> Accepted(disk.tree, root, root + [name], reviewed, raw, owned) && MayRun(disk.tree, root, root + [name], reviewed, raw, owned)
    ensures ok ==> (forall target :: target in targets <==> IsListed(disk.tree, root + [name], reviewed, raw, target))
    ensures ok ==> ManifestBehind(targets, reviewed)
    ensures ok ==> targets == TargetList(disk.tree, root + [name], reviewed, raw) && GoodTargets(targets)
    ensures !ok ==> disk.failures > old(disk.failures) || !MayRun(disk.tree, root, root + [name], reviewed, raw, owned)
    ensures disk.failures >= old(disk.failures)
  {
    hide SafeRawDumpPath, Acceptable, MayRun, IsListed, ManifestBehind, GoodTargets, TargetPaths, StagedIn, NoRepeats;
    AcceptedExactly(disk.tree, root, root + [name], reviewed, raw, owned);
    targets := [];
    for i := 0 to |raw|
      invariant forall k :: 0 <= k < i ==> SafeRawDumpPath(raw[k])
    {
      if !SafeRawDumpPath(raw[i]) {
        return false, [];
      }
    }
    var staged, slice;
    ok, staged := StagedTrees(disk, root + [name]);
    if !ok {
      return;
    }
    slice := SliceOrder(reviewed);
    targets := ListTargets(TargetPaths(staged, slice, raw), |staged|);
    assert targets == TargetList(disk.tree, root + [name], reviewed, raw);
    ok := Preflight(disk, root, root + [name], targets, reviewed, owned);
    if ok {
      AcceptedList(disk.tree, root, root + [name], reviewed, raw, owned);
    }
  }

  lemma AcceptedList(t: Tree, root: Path, stage: Path, reviewed: seq<Path>, raw: seq<Path>, owned: set<Path>)
    requires NoRepeats(reviewed) && NoRepeats(raw) && Accepted(t, root, stage, reviewed, raw, owned)
    ensures var targets := TargetList(t, stage, reviewed, raw);
      && GoodTargets(targets) && ManifestBehind(targets, reviewed)
      && (forall target :: target in targets <==> IsListed(t, stage, reviewed, raw, target))
  {
    var targets, staged, slice := TargetList(t, stage, reviewed, raw), StagedIn(t, stage), WithoutManifest(reviewed);
    hide SafeRawDumpPath, IsListed, ManifestBehind, TargetPaths, IsAcceptable, IsSlicePath, Shaped, NoRepeats;
    AcceptableParts(t, root, stage, targets, reviewed, raw, owned);
    TargetPathsNoRepeats(staged, slice, raw);
    TargetPathsShaped(staged, slice, raw);
    ManifestIsBehind(t, stage, reviewed, raw);
    forall target
      ensures target in targets <==> IsListed(t, stage, reviewed, raw, target)
    {
      TargetsAre(t, stage, reviewed, raw, target);
    }
    ListIsGood(targets, TargetPaths(staged, slice, raw));
  }

  lemma ListIsGood(targets: seq<Target>, paths: seq<Path>)
    requires |targets| == |paths| && NoRepeats(paths) && forall p :: p in paths ==> Shaped(p)
    requires forall i :: 0 <= i < |targets| ==> targets[i].path == paths[i]
    ensures GoodTargets(targets)
  {
    hide Shaped;
  }

  lemma AcceptableParts(t: Tree, root: Path, stage: Path, targets: seq<Target>, reviewed: seq<Path>, raw: seq<Path>, owned: set<Path>)
    requires NoRepeats(reviewed) && NoRepeats(raw) && (forall p :: p in raw ==> SafeRawDumpPath(p))
    requires Acceptable(t, root, stage, targets, reviewed, owned)
    ensures GoodParts(StagedIn(t, stage), WithoutManifest(reviewed), raw)
  {
    hide SafeRawDumpPath, IsAcceptable;
    WithoutManifestNoRepeats(reviewed);
  }

  /** Everything listed is exactly what was staged for it. */
  ghost predicate AllReplaced(t0: Tree, t: Tree, root: Path, stage: Path, reviewed: seq<Path>, raw: seq<Path>) {
    forall target :: IsListed(t0, stage, reviewed, raw, target) ==> At(t, root + target.path) == At(t0, stage + target.path) != map[]
  }

  lemma ListedIsReplaced(t0: Tree, t: Tree, root: Path, stage: Path, reviewed: seq<Path>, raw: seq<Path>, targets: seq<Target>)
    requires forall target :: target in targets <==> IsListed(t0, stage, reviewed, raw, target)
    requires forall i :: 0 <= i < |targets| ==> At(t, root + targets[i].path) == At(t0, stage + targets[i].path) != map[]
    ensures AllReplaced(t0, t, root, stage, reviewed, raw)
  {
    hide At, IsListed;
    forall target | IsListed(t0, stage, reviewed, raw, target)
      ensures At(t, root + target.path) == At(t0, stage + target.path) != map[]
    {
      var i :| 0 <= i < |targets| && targets[i] == target;
    }
  }

  /** Replaces the targets by the staged products and disposes of the stage: it is
      kept exactly when some original could not be put back. There are no targets
      when the run was not accepted, or it could not be found out. */
  method WriteGeneration(disk: Disk, root: Path, name: string, reviewed: seq<Path>, raw: seq<Path>, owned: set<Path>)
    returns (result: RunResult, ghost targets: seq<Target>, ghost started: nat, ghost touched: nat, ghost past: seq<Tree>)
    requires disk.Valid() && IsStageName(name) && root + [name] in disk.tree
    requires NoRepeats(reviewed) && NoRepeats(raw)
    modifies disk
    ensures disk.Valid() && disk.history == old(disk.history) + past
    ensures GoodTargets(targets)
    ensures targets == TargetList(old(disk.tree), root + [name], reviewed, raw) || (targets == [] && result == Unchanged)
    ensures targets != [] ==>
      && MayRun(old(disk.tree), root, root + [name], reviewed, raw, owned) && ManifestBehind(targets, reviewed)
      && (forall target :: target in targets <==> IsListed(old(disk.tree), root + [name], reviewed, raw, target))
    ensures result == Generated ==> targets != [] && AllReplaced(old(disk.tree), disk.tree, root, root + [name], reviewed, raw)
    ensures result == Unchanged ==> TreeUnchanged(old(disk.tree), disk.tree, root, root + [name], targets)
    ensures result == Unchanged ==> ExactAsFarAs(old(disk.tree), disk.tree, root, root + [name], targets, started, touched)
    ensures result != Generated ==> OriginalsKept(old(disk.tree), disk.tree, root, root + [name], targets)
    ensures RestUnchanged(old(disk.tree), disk.tree, root, root + [name], targets)
    ensures forall k :: 0 <= k < |past| - 1 ==> Orderly(old(disk.tree), past[k], root, root + [name], targets)
    ensures result != Generated ==>
      disk.failures > old(disk.failures) || !MayRun(old(disk.tree), root, root + [name], reviewed, raw, owned)
    ensures result == BackupsRetained ==> disk.failures > old(disk.failures) + 1
  {
    hide At, Within, Closed, AllOrNothing, SafeThroughout, NothingLost, OnlyJobs, TreeUnchanged, RestUnchanged, SameOutside, Shaped,
         IsStageName, Accepted, Replaceable, Started, OnlyFirst, MustBeMade, ExactAsFarAs, MayRun, IsListed, ManifestBehind, AllReplaced;
    ghost var t0 := disk.tree;
    var stage := root + [name];
    past := [];
    var ok, planned := Plan(disk, root, name, reviewed, raw, owned);
    if !ok {
      targets := [];
      var _ := disk.RemoveAll(stage);
      past := [disk.tree];
      NothingPlanned(t0, disk.tree, root, stage);
      return Unchanged, targets, 0, 0, past;
    }
    targets := planned;
    AcceptedIsReplaceable(t0, root, stage, reviewed, raw, owned);
    ghost var jobs := JobsFor(root, stage, targets);
    JobsForApart(root, name, planned);
    var outcome;
    outcome, started, touched, past := Commit(disk, JobsFor(root, stage, planned));
    SafeMeansOrderly(t0, past, root, name, targets);
    OnlyTargetsChange(root, name, targets, t0, disk.tree);
    if outcome.Retained() {
      return BackupsRetained, targets, started, touched, past;
    }
    ghost var t := disk.tree;
    var _ := disk.RemoveAll(stage);
    WithoutStage(t0, t, disk.tree, root, stage, targets);
    if outcome == Committed {
      InstalledIsStaged(root, name, targets, t0, t, disk.tree);
      ListedIsReplaced(t0, disk.tree, root, stage, reviewed, raw, targets);
      result := Generated;
    } else {
      StageMayGo(root, name, targets, t0, t, disk.tree);
      StoppedRun(root, name, targets, t0, t, disk.tree, started, touched);
      UndoneMeansUnchanged(root, name, targets, t0, t);
      result := Unchanged;
    }
    past := past + [disk.tree];
  }

  lemma AcceptedIsReplaceable(t: Tree, root: Path, stage: Path, reviewed: seq<Path>, raw: seq<Path>, owned: set<Path>)
    requires Accepted(t, root, stage, reviewed, raw, owned)
    ensures var targets := TargetList(t, stage, reviewed, raw);
      targets != [] && forall i :: 0 <= i < |targets| ==> Replaceable(t, root, stage, targets[i].path, targets[i].dir)
  {
    hide Replaceable, IsSlicePath, SafeRawDumpPath;
    var targets := TargetList(t, stage, reviewed, raw);
    forall i | 0 <= i < |targets|
      ensures Replaceable(t, root, stage, targets[i].path, targets[i].dir)
    {
      assert IsAcceptable(t, root, stage, targets[i], owned);
    }
  }
}
