/** The all-or-nothing replacement of a list of targets by staged products.
 */
module Transaction {
  import opened FileTree
  import opened Disks
  import opened Options

  /** One replacement to make: where the product goes, where it is staged, where
      the previous content is kept meanwhile, and whether it is a directory. */
  datatype Job = Job(dest: Path, source: Path, backup: Path, dir: bool)

  /** What the commit has recorded about a job it has started: where the previous
      content went, if there was any, and whether the product is in place. */
  datatype Replacement = Replacement(job: Job, backup: Option<Path>, installed: bool)

  // ---- paths ----

  ghost predicate JobApart(job: Job) {
    && |job.dest| > 0 && |job.backup| > 0
    && Apart(job.dest, job.source) && Apart(job.dest, job.backup) && Apart(job.source, job.backup)
  }

  /** r shares nothing with the paths of the job. */
  ghost predicate ClearOf(job: Job, r: Path) {
    Apart(job.dest, r) && Apart(job.source, r) && Apart(job.backup, r)
  }

  /** The destinations, staged products and backups never contain one another. */
  ghost predicate JobsApart(jobs: seq<Job>) {
    && (forall i :: 0 <= i < |jobs| ==> JobApart(jobs[i]))
    && (forall i, j :: 0 <= i < |jobs| && 0 <= j < |jobs| && i != j ==>
          ClearOf(jobs[i], jobs[j].dest) && ClearOf(jobs[i], jobs[j].source) && ClearOf(jobs[i], jobs[j].backup))
  }

  /** q is not at or below a path the job replaces, stages or backs up. */
  ghost predicate OutsideJob(job: Job, q: Path) {
    !Within(q, job.dest) && !Within(q, job.source) && !Within(q, job.backup)
  }

  /** All that a job may do to a path outside it: make it a directory on the way
      to the destination or the backup, where there was nothing. */
  ghost predicate Spared(job: Job, t: Tree, s: Tree, q: Path) {
    && (q in t ==> q in s && s[q] == t[q])
    && (q in s && q !in t ==> s[q] == Directory && (Within(job.dest, q) || Within(job.backup, q)))
  }

  // ---- what must never be lost ----

  /** The original content of the job's destination is there or in its backup. */
  ghost predicate Kept(job: Job, t0: Tree, s: Tree) {
    || At(t0, job.dest) == map[]
    || At(s, job.dest) == At(t0, job.dest)
    || At(s, job.backup) == At(t0, job.dest)
  }

  // ---- one job ----

  /** How far a job got: its destination untouched, emptied, or replaced. */
  datatype Step = NotStarted | Removed | Installed

  /** s differs from t only at the job's own paths and by new directories on
      the way to them. */
  ghost predicate OnlyJob(job: Job, t: Tree, s: Tree) {
    && (forall q :: OutsideJob(job, q) ==> Spared(job, t, s, q))
    && (forall r :: ClearOf(job, r) ==> At(s, r) == At(t, r))
  }

  lemma OnlyJobTransitive(job: Job, t: Tree, s: Tree, u: Tree)
    requires OnlyJob(job, t, s) && OnlyJob(job, s, u)
    ensures OnlyJob(job, t, u)
  {
    forall q | OutsideJob(job, q)
      ensures Spared(job, t, u, q)
    {
      assert Spared(job, t, s, q) && Spared(job, s, u, q);
    }
  }

  lemma MoveIsOnlyJob(job: Job, t: Tree, src: Path, dst: Path)
    requires CanMove(t, src, dst)
    requires {src, dst} <= {job.dest, job.source, job.backup}
    ensures OnlyJob(job, t, Move(t, src, dst))
  {
    var u := Move(t, src, dst);
    forall q | OutsideJob(job, q)
      ensures Spared(job, t, u, q)
    {
      assert src in {src, dst} && dst in {src, dst};
      assert Agree(t, u, q);
    }
    forall r | ClearOf(job, r)
      ensures At(u, r) == At(t, r)
    {
      assert src in {src, dst} && dst in {src, dst};
      MoveKeeps(t, src, dst, r);
    }
  }

  lemma MkdirIsOnlyJob(job: Job, t: Tree, u: Tree, p: Path)
    requires |p| > 0 && (p == job.dest || p == job.backup)
    requires AddsDirectories(t, u, p[..|p| - 1])
    ensures OnlyJob(job, t, u)
    ensures forall r :: Apart(p, r) || r == p ==> At(u, r) == At(t, r)
  {
    var parent := p[..|p| - 1];
    forall q | OutsideJob(job, q)
      ensures Spared(job, t, u, q)
    {
      if q in u && q !in t {
        assert Within(parent, q);
        assert q <= parent <= p;
      }
    }
    forall r | Apart(p, r) || r == p
      ensures At(u, r) == At(t, r)
    {
      assert Within(parent, r) ==> |r| < |p| && Within(p, r);
      AddsDirectoriesKeeps(t, u, parent, r);
    }
  }

  /** The directory that p belongs in is there. */
  ghost predicate HasDirectory(t: Tree, p: Path) {
    |p| > 0 && p[..|p| - 1] in t && t[p[..|p| - 1]] == Directory
  }

  lemma DirectoryIsOutside(job: Job, dest: Path)
    requires |dest| > 0 && (dest == job.dest || Apart(job.dest, dest)) && Apart(job.source, dest) && Apart(job.backup, dest)
    ensures OutsideJob(job, dest[..|dest| - 1])
  {
    InsideParent(dest, job.dest);
    InsideParent(dest, job.source);
    InsideParent(dest, job.backup);
  }

  /** Work on a job leaves the directory of its destination, and of any clear of it. */
  lemma DirectoryStays(job: Job, dest: Path, t: Tree, s: Tree)
    requires OnlyJob(job, t, s) && HasDirectory(t, dest)
    requires (dest == job.dest || Apart(job.dest, dest)) && Apart(job.source, dest) && Apart(job.backup, dest)
    ensures HasDirectory(s, dest)
  {
    DirectoryIsOutside(job, dest);
    assert Spared(job, t, s, dest[..|dest| - 1]);
  }

  lemma OwnDirectoryStays(job: Job, t: Tree, s: Tree)
    requires JobApart(job) && OnlyJob(job, t, s) && HasDirectory(t, job.dest)
    ensures HasDirectory(s, job.dest)
  {
    hide OnlyJob, HasDirectory, Within;
    DirectoryStays(job, job.dest, t, s);
  }

  /** Since the tree t, through all the trees of past, the disk only worked on
      the job and kept the content its destination had in t0. */
  ghost predicate WorkedOn(job: Job, t: Tree, t0: Tree, past: seq<Tree>) {
    forall k :: 0 <= k < |past| ==> OnlyJob(job, t, past[k]) && Kept(job, t0, past[k])
  }

  /** The original content of the destination is in the backup, if there was any. */
  ghost predicate Saved(job: Job, t0: Tree, t: Tree, backup: Option<Path>) {
    if At(t0, job.dest) == map[] then
      backup == None
    else
      backup == Some(job.backup) && At(t, job.backup) == At(t0, job.dest)
  }

  /** Before the job has touched anything but directories on the way. */
  ghost predicate Ready(job: Job, t0: Tree, t: Tree) {
    OnlyJob(job, t0, t) && At(t, job.dest) == At(t0, job.dest) && At(t, job.source) == At(t0, job.source)
  }

  /** The way is free for the product. */
  ghost predicate Cleared(job: Job, t0: Tree, t: Tree, backup: Option<Path>) {
    && OnlyJob(job, t0, t) && Saved(job, t0, t, backup)
    && At(t, job.dest) == map[] && At(t, job.source) == At(t0, job.source)
  }

  /** The product is in place. */
  ghost predicate InPlace(job: Job, t0: Tree, t: Tree, backup: Option<Path>) {
    OnlyJob(job, t0, t) && Saved(job, t0, t, backup) && At(t, job.dest) == At(t0, job.source)
  }

  lemma OnlyJobAtFirst(job: Job, t0: Tree)
    ensures OnlyJob(job, t0, t0)
  {
  }

  lemma KeptSoFar(job: Job, t0: Tree, t: Tree, backup: Option<Path>)
    requires Ready(job, t0, t) || Cleared(job, t0, t, backup) || InPlace(job, t0, t, backup)
    ensures OnlyJob(job, t0, t) && Kept(job, t0, t)
  {
    hide At, OnlyJob;
  }

  lemma WorkedOnAppend(job: Job, t: Tree, t0: Tree, past: seq<Tree>, u: Tree)
    requires WorkedOn(job, t, t0, past) && OnlyJob(job, t, u) && Kept(job, t0, u)
    ensures WorkedOn(job, t, t0, past + [u])
  {
    hide OnlyJob, Kept;
  }

  lemma AfterMkdir(job: Job, t0: Tree, t: Tree, u: Tree, p: Path)
    requires JobApart(job) && (p == job.dest || p == job.backup)
    requires Ready(job, t0, t) && AddsDirectories(t, u, p[..|p| - 1])
    ensures Ready(job, t0, u) && Kept(job, t0, u)
  {
    hide At;
    MkdirIsOnlyJob(job, t, u, p);
    OnlyJobTransitive(job, t0, t, u);
  }

  lemma AfterBackUp(job: Job, t0: Tree, t: Tree)
    requires JobApart(job) && Ready(job, t0, t) && CanMove(t, job.dest, job.backup)
    ensures var u := Move(t, job.dest, job.backup);
      Cleared(job, t0, u, Some(job.backup)) && Kept(job, t0, u)
  {
    PresentMeansNonEmpty(t, job.dest);
    assert At(t, job.dest) != map[];
    hide At, Move, CanMove, OnlyJob;
    var u := Move(t, job.dest, job.backup);
    MoveIsOnlyJob(job, t, job.dest, job.backup);
    OnlyJobTransitive(job, t0, t, u);
    MoveEffect(t, job.dest, job.backup);
    MoveKeeps(t, job.dest, job.backup, job.source);
  }

  lemma AfterMissing(job: Job, t0: Tree, t: Tree)
    requires Ready(job, t0, t) && Closed(t) && job.dest !in t
    ensures Cleared(job, t0, t, None)
  {
    AbsentMeansEmpty(t, job.dest);
  }

  lemma AfterInstall(job: Job, t0: Tree, t: Tree, backup: Option<Path>)
    requires JobApart(job) && Cleared(job, t0, t, backup) && CanMove(t, job.source, job.dest)
    ensures var u := Move(t, job.source, job.dest);
      InPlace(job, t0, u, backup) && Kept(job, t0, u)
  {
    hide At, Move, CanMove, OnlyJob;
    var u := Move(t, job.source, job.dest);
    MoveIsOnlyJob(job, t, job.source, job.dest);
    OnlyJobTransitive(job, t0, t, u);
    MoveEffect(t, job.source, job.dest);
    MoveKeeps(t, job.source, job.dest, job.backup);
  }

  /** Makes way for the product: the directory of the destination is made and an
      existing destination is renamed to the backup. */
  method SetAside(disk: Disk, job: Job) returns (ok: bool, backup: Option<Path>, ghost past: seq<Tree>)
    requires disk.Valid() && JobApart(job)
    modifies disk
    ensures disk.Valid() && disk.history == old(disk.history) + past
    ensures WorkedOn(job, old(disk.tree), old(disk.tree), past)
    ensures ok ==> Cleared(job, old(disk.tree), disk.tree, backup) && HasDirectory(disk.tree, job.dest)
    ensures !ok ==> Ready(job, old(disk.tree), disk.tree)
    ensures disk.failures >= old(disk.failures) && (!ok ==> disk.failures > old(disk.failures))
  {
    hide At, OnlyJob, Kept, AddsDirectories, Closed, Move, CanMove, Within, Apart;
    ghost var t0 := disk.tree;
    backup := None;
    ok := disk.MkdirAll(job.dest[..|job.dest| - 1]);
    OnlyJobAtFirst(job, t0);
    AfterMkdir(job, t0, t0, disk.tree, job.dest);
    past := [disk.tree];
    if !ok {
      return;
    }
    var presence := disk.Lstat(job.dest);
    if presence == Exists {
      ghost var morePast, t1 := [], disk.tree;
      ok, morePast := BackUp(disk, job, t0);
      OwnDirectoryStays(job, t1, disk.tree);
      past := past + morePast;
      backup := Some(job.backup);
    } else if presence == Missing {
      AfterMissing(job, t0, disk.tree);
    } else {
      ok := false;
    }
  }

  /** Renames the destination, untouched since t0, to the backup. */
  method BackUp(disk: Disk, job: Job, ghost t0: Tree) returns (ok: bool, ghost past: seq<Tree>)
    requires disk.Valid() && JobApart(job) && Ready(job, t0, disk.tree)
    modifies disk
    ensures disk.Valid() && disk.history == old(disk.history) + past
    ensures WorkedOn(job, t0, t0, past)
    ensures ok ==> Cleared(job, t0, disk.tree, Some(job.backup))
    ensures !ok ==> Ready(job, t0, disk.tree)
    ensures OnlyJob(job, old(disk.tree), disk.tree)
    ensures disk.failures >= old(disk.failures) && (!ok ==> disk.failures > old(disk.failures))
  {
    hide At, OnlyJob, Kept, AddsDirectories, Closed, Move, CanMove, Within, Apart;
    ghost var t1 := disk.tree;
    ok := disk.MkdirAll(job.backup[..|job.backup| - 1]);
    ghost var t2 := disk.tree;
    AfterMkdir(job, t0, t1, t2, job.backup);
    MkdirIsOnlyJob(job, t1, t2, job.backup);
    past := [t2];
    hide WorkedOn, Ready, Cleared;
    if ok {
      ok := disk.Rename(job.dest, job.backup);
      if ok {
        AfterBackUp(job, t0, t2);
        MoveIsOnlyJob(job, t2, job.dest, job.backup);
        OnlyJobTransitive(job, t1, t2, disk.tree);
      }
      KeptSoFar(job, t0, disk.tree, Some(job.backup));
      WorkedOnAppend(job, t0, t0, past, disk.tree);
      past := past + [disk.tree];
    }
  }

  /** Runs one job: makes way for the product and renames it into place. Either
      may fail, and then nothing more is done. */
  method ReplaceOne(disk: Disk, job: Job) returns (step: Step, backup: Option<Path>, ghost past: seq<Tree>)
    requires disk.Valid() && JobApart(job)
    modifies disk
    ensures disk.Valid() && disk.history == old(disk.history) + past
    ensures WorkedOn(job, old(disk.tree), old(disk.tree), past)
    ensures step == NotStarted ==> Ready(job, old(disk.tree), disk.tree)
    ensures step == Removed ==> Cleared(job, old(disk.tree), disk.tree, backup)
    ensures step == Installed ==> InPlace(job, old(disk.tree), disk.tree, backup)
    ensures step != NotStarted ==> HasDirectory(disk.tree, job.dest)
    ensures disk.failures >= old(disk.failures) && (step != Installed ==> disk.failures > old(disk.failures))
  {
    hide At, OnlyJob, Kept, AddsDirectories, Closed, Move, CanMove, Within, Apart;
    ghost var t0 := disk.tree;
    var ok;
    ok, backup, past := SetAside(disk, job);
    if !ok {
      return NotStarted, backup, past;
    }
    ghost var t1 := disk.tree;
    KeptSoFar(job, t0, t1, backup);
    ok := disk.Rename(job.source, job.dest);
    past := past + [disk.tree];
    if !ok {
      return Removed, backup, past;
    }
    AfterInstall(job, t0, t1, backup);
    MoveIsOnlyJob(job, t1, job.source, job.dest);
    OwnDirectoryStays(job, t1, disk.tree);
    return Installed, backup, past;
  }

  // ---- undoing one job ----

  /** What has to hold of a recorded replacement for it to be undone. */
  ghost predicate Undoable(r: Replacement, t0: Tree, t: Tree) {
    Saved(r.job, t0, t, r.backup) && (!r.installed ==> At(t, r.job.dest) == map[])
  }

  lemma RemovalIsOnlyJob(job: Job, t: Tree, u: Tree)
    requires SameOutside(t, u, job.dest)
    ensures OnlyJob(job, t, u)
  {
    forall q | OutsideJob(job, q)
      ensures Spared(job, t, u, q)
    {
      assert Agree(t, u, q);
    }
    forall r | ClearOf(job, r)
      ensures At(u, r) == At(t, r)
    {
      SameOutsideKeeps(t, u, job.dest, r);
    }
  }

  lemma AfterRemoval(r: Replacement, t0: Tree, t: Tree, u: Tree)
    requires JobApart(r.job) && Undoable(r, t0, t) && SameOutside(t, u, r.job.dest)
    ensures OnlyJob(r.job, t, u) && Saved(r.job, t0, u, r.backup) && Kept(r.job, t0, u)
  {
    hide At, SameOutside;
    RemovalIsOnlyJob(r.job, t, u);
    SameOutsideKeeps(t, u, r.job.dest, r.job.backup);
  }

  lemma AfterRestore(job: Job, t0: Tree, t: Tree, u: Tree)
    requires JobApart(job) && Saved(job, t0, t, Some(job.backup))
    requires CanMove(t, job.backup, job.dest) && u == Move(t, job.backup, job.dest)
    ensures OnlyJob(job, t, u) && At(u, job.dest) == At(t0, job.dest) && Kept(job, t0, u)
  {
    hide At, Move, CanMove, OnlyJob;
    MoveIsOnlyJob(job, t, job.backup, job.dest);
    MoveEffect(t, job.backup, job.dest);
  }

  lemma BeforeUndo(r: Replacement, t0: Tree, t: Tree)
    requires Undoable(r, t0, t)
    ensures OnlyJob(r.job, t, t) && Kept(r.job, t0, t)
    ensures !r.installed && r.backup == None ==> At(t, r.job.dest) == At(t0, r.job.dest)
  {
  }

  /** Removes an installed product, a directory with everything in it. */
  method RemoveProduct(disk: Disk, r: Replacement, ghost t0: Tree) returns (ok: bool)
    requires disk.Valid() && JobApart(r.job) && Undoable(r, t0, disk.tree)
    modifies disk
    ensures disk.Valid() && disk.history == old(disk.history) + [disk.tree]
    ensures OnlyJob(r.job, old(disk.tree), disk.tree) && Kept(r.job, t0, disk.tree)
    ensures Saved(r.job, t0, disk.tree, r.backup)
    ensures ok ==> At(disk.tree, r.job.dest) == map[]
    ensures disk.failures >= old(disk.failures) && (!ok ==> disk.failures > old(disk.failures))
  {
    hide At, OnlyJob, Kept, Closed, Within, Apart;
    ghost var t := disk.tree;
    if r.job.dir {
      ok := disk.RemoveAll(r.job.dest);
    } else {
      ok := disk.Remove(r.job.dest);
    }
    WithoutEffect(t, r.job.dest);
    SameOutsideSelf(t, r.job.dest);
    AfterRemoval(r, t0, t, disk.tree);
  }

  /** The destination shows nothing but what it held at the start. */
  ghost predicate NotShown(job: Job, t0: Tree, s: Tree) {
    At(s, job.dest) == At(t0, job.dest) || At(s, job.dest) == map[]
  }

  /** Undoes one replacement: the product is removed, then the backup renamed
      back. A failed removal leaves the backup where it is. */
  method UndoOne(disk: Disk, r: Replacement, ghost t0: Tree) returns (ok: bool, ghost past: seq<Tree>)
    requires disk.Valid() && JobApart(r.job) && Undoable(r, t0, disk.tree)
    modifies disk
    ensures disk.Valid() && disk.history == old(disk.history) + past
    ensures WorkedOn(r.job, old(disk.tree), t0, past)
    ensures OnlyJob(r.job, old(disk.tree), disk.tree) && Kept(r.job, t0, disk.tree)
    ensures ok ==> At(disk.tree, r.job.dest) == At(t0, r.job.dest)
    ensures !ok ==> Saved(r.job, t0, disk.tree, r.backup)
    ensures !r.installed ==> NotShown(r.job, t0, disk.tree)
    ensures !r.installed ==> forall k :: 0 <= k < |past| ==> NotShown(r.job, t0, past[k])
    ensures disk.failures >= old(disk.failures) && (!ok ==> disk.failures > old(disk.failures))
  {
    hide At, OnlyJob, Kept, Closed, Within, Apart, Move, CanMove;
    ghost var t := disk.tree;
    BeforeUndo(r, t0, t);
    ok, past := true, [];
    if r.installed {
      ok := RemoveProduct(disk, r, t0);
      past := [disk.tree];
      if !ok {
        return;
      }
    }
    if r.backup.Some? {
      ghost var t1 := disk.tree;
      ok := disk.Rename(r.backup.value, r.job.dest);
      if ok {
        AfterRestore(r.job, t0, t1, disk.tree);
        OnlyJobTransitive(r.job, t, t1, disk.tree);
      }
      WorkedOnAppend(r.job, t, t0, past, disk.tree);
      past := past + [disk.tree];
    }
  }

  // ---- the whole list ----

  /** The original content of every destination is there or in its backup. */
  ghost predicate NothingLost(jobs: seq<Job>, t0: Tree, s: Tree) {
    forall i :: 0 <= i < |jobs| ==> Kept(jobs[i], t0, s)
  }

  /** q is not at or below any path of the jobs. */
  ghost predicate Outside(jobs: seq<Job>, q: Path) {
    forall i :: 0 <= i < |jobs| ==> OutsideJob(jobs[i], q)
  }

  /** Where nothing was, at most a directory on the way to a job's paths was made. */
  ghost predicate SparedByAll(jobs: seq<Job>, t: Tree, s: Tree, q: Path) {
    && (q in t ==> q in s && s[q] == t[q])
    && (q in s && q !in t ==> s[q] == Directory && exists i :: 0 <= i < |jobs| && OnTheWay(jobs[i], q))
  }

  ghost predicate OnTheWay(job: Job, q: Path) {
    Within(job.dest, q) || Within(job.backup, q)
  }

  /** s differs from t only at the jobs' own paths and by new directories on the
      way to them. */
  ghost predicate OnlyJobs(jobs: seq<Job>, t: Tree, s: Tree) {
    forall q :: Outside(jobs, q) ==> SparedByAll(jobs, t, s, q)
  }

  /** In every tree of past, no original is lost and nothing else is touched. */
  ghost predicate SafeThroughout(jobs: seq<Job>, t0: Tree, past: seq<Tree>) {
    forall k :: 0 <= k < |past| ==> NothingLost(jobs, t0, past[k]) && OnlyJobs(jobs, t0, past[k])
  }

  lemma SafeAtFirst(jobs: seq<Job>, t0: Tree)
    ensures SafeThroughout(jobs, t0, []) && NothingLost(jobs, t0, t0) && OnlyJobs(jobs, t0, t0)
  {
  }

  lemma SafeConcat(jobs: seq<Job>, t0: Tree, past: seq<Tree>, more: seq<Tree>)
    requires SafeThroughout(jobs, t0, past) && SafeThroughout(jobs, t0, more)
    ensures SafeThroughout(jobs, t0, past + more)
  {
    hide NothingLost, OnlyJobs;
  }

  lemma OnlyJobsAfter(jobs: seq<Job>, j: nat, t0: Tree, t: Tree, s: Tree)
    requires j < |jobs| && OnlyJobs(jobs, t0, t) && OnlyJob(jobs[j], t, s)
    ensures OnlyJobs(jobs, t0, s)
  {
    forall q | Outside(jobs, q)
      ensures SparedByAll(jobs, t0, s, q)
    {
      assert SparedByAll(jobs, t0, t, q);
      assert OutsideJob(jobs[j], q);
      assert Spared(jobs[j], t, s, q);
      if q in s && q !in t {
        assert OnTheWay(jobs[j], q);
      }
    }
  }

  /** The first n jobs were started: the directories of their destinations are there. */
  ghost predicate Started(jobs: seq<Job>, n: nat, t: Tree) {
    n <= |jobs| && forall k :: 0 <= k < n ==> HasDirectory(t, jobs[k].dest)
  }

  /** Nothing removes a directory that was made for a destination. */
  lemma StartedStays(jobs: seq<Job>, j: nat, n: nat, t: Tree, s: Tree)
    requires JobsApart(jobs) && j < |jobs| && OnlyJob(jobs[j], t, s) && Started(jobs, n, t)
    ensures Started(jobs, n, s)
  {
    hide OnlyJob, HasDirectory, Apart;
    forall k | 0 <= k < n
      ensures HasDirectory(s, jobs[k].dest)
    {
      assert k != j ==> ClearOf(jobs[j], jobs[k].dest);
      assert JobApart(jobs[j]);
      ApartIsSymmetric(jobs[j]);
      DirectoryStays(jobs[j], jobs[k].dest, t, s);
    }
  }

  /** s differs from t only by the work of the first n jobs. */
  ghost predicate OnlyFirst(jobs: seq<Job>, n: nat, t: Tree, s: Tree) {
    n <= |jobs| && OnlyJobs(jobs[..n], t, s)
  }

  lemma OnlyFirstAfter(jobs: seq<Job>, j: nat, n: nat, t0: Tree, t: Tree, s: Tree)
    requires j < n && OnlyFirst(jobs, n, t0, t) && OnlyJob(jobs[j], t, s)
    ensures OnlyFirst(jobs, n, t0, s)
  {
    hide OnlyJob, OnlyJobs;
    assert jobs[..n][j] == jobs[j];
    OnlyJobsAfter(jobs[..n], j, t0, t, s);
  }

  lemma OnlyFirstMore(jobs: seq<Job>, n: nat, t: Tree, s: Tree)
    requires n < |jobs| && OnlyFirst(jobs, n, t, s)
    ensures OnlyFirst(jobs, n + 1, t, s)
  {
    hide OutsideJob, OnTheWay;
    var a, b := jobs[..n], jobs[..n + 1];
    forall q | Outside(b, q)
      ensures SparedByAll(b, t, s, q)
    {
      assert forall i :: 0 <= i < n ==> a[i] == b[i];
      assert SparedByAll(a, t, s, q);
      if q in s && q !in t {
        var i :| 0 <= i < n && OnTheWay(a[i], q);
        assert OnTheWay(b[i], q);
      }
    }
  }

  lemma OnlyNone(jobs: seq<Job>, t: Tree)
    ensures OnlyFirst(jobs, 0, t, t)
  {
  }

  lemma ApartIsSymmetric(job: Job)
    requires JobApart(job)
    ensures Apart(job.source, job.dest) && Apart(job.backup, job.dest)
  {
  }

  /** Work on one job leaves the content at every other job's paths alone. */
  lemma OthersUntouched(jobs: seq<Job>, j: nat, t: Tree, s: Tree)
    requires JobsApart(jobs) && j < |jobs| && OnlyJob(jobs[j], t, s)
    ensures forall i :: 0 <= i < |jobs| && i != j ==>
      && At(s, jobs[i].dest) == At(t, jobs[i].dest)
      && At(s, jobs[i].source) == At(t, jobs[i].source)
      && At(s, jobs[i].backup) == At(t, jobs[i].backup)
  {
    hide At, Spared;
  }

  /** The same for one other job. */
  lemma OtherUntouched(jobs: seq<Job>, j: nat, i: nat, t: Tree, s: Tree)
    requires JobsApart(jobs) && j < |jobs| && i < |jobs| && i != j && OnlyJob(jobs[j], t, s)
    ensures At(s, jobs[i].dest) == At(t, jobs[i].dest)
    ensures At(s, jobs[i].source) == At(t, jobs[i].source)
    ensures At(s, jobs[i].backup) == At(t, jobs[i].backup)
  {
    hide At, OnlyJob, JobsApart;
    OthersUntouched(jobs, j, t, s);
  }

  lemma NothingLostAfter(jobs: seq<Job>, j: nat, t0: Tree, t: Tree, s: Tree)
    requires JobsApart(jobs) && j < |jobs| && OnlyJob(jobs[j], t, s)
    requires NothingLost(jobs, t0, t) && Kept(jobs[j], t0, s)
    ensures NothingLost(jobs, t0, s)
  {
    hide At, OnlyJob;
    OthersUntouched(jobs, j, t, s);
    forall i | 0 <= i < |jobs|
      ensures Kept(jobs[i], t0, s)
    {
      assert Kept(jobs[i], t0, t);
    }
  }

  /** Work on one job keeps the whole list safe. */
  lemma SafeAfter(jobs: seq<Job>, j: nat, t0: Tree, t: Tree, past: seq<Tree>, more: seq<Tree>)
    requires JobsApart(jobs) && j < |jobs|
    requires SafeThroughout(jobs, t0, past) && WorkedOn(jobs[j], t, t0, more)
    requires NothingLost(jobs, t0, t) && OnlyJobs(jobs, t0, t)
    ensures SafeThroughout(jobs, t0, past + more)
  {
    hide Kept, OnlyJob, NothingLost, OnlyJobs, JobsApart;
    forall k | 0 <= k < |more|
      ensures NothingLost(jobs, t0, more[k]) && OnlyJobs(jobs, t0, more[k])
    {
      NothingLostAfter(jobs, j, t0, t, more[k]);
      OnlyJobsAfter(jobs, j, t0, t, more[k]);
    }
  }

  /** The recorded replacements, in the order they were made: the k-th is about
      job which[k]. */
  ghost predicate Records(changed: seq<Replacement>, jobs: seq<Job>, which: seq<nat>) {
    && |which| == |changed|
    && (forall k :: 0 <= k < |which| ==> which[k] < |jobs| && changed[k].job == jobs[which[k]])
    && (forall a, b :: 0 <= a < b < |which| ==> which[a] < which[b])
  }

  /** A replacement still to be undone can be; one whose undoing failed has its
      backup intact; any other is restored. */
  ghost predicate Settled(r: Replacement, t0: Tree, t: Tree, pending: bool, failed: bool) {
    if pending then Undoable(r, t0, t)
    else if failed then Saved(r.job, t0, t, r.backup)
    else At(t, r.job.dest) == At(t0, r.job.dest)
  }

  /** The state after undoing from the end down to position n; destinations that
      are not recorded were never changed. */
  ghost predicate UndoneFrom(changed: seq<Replacement>, jobs: seq<Job>, which: seq<nat>, t0: Tree, t: Tree, n: nat, failed: set<nat>) {
    && Records(changed, jobs, which)
    && (forall k :: k in failed ==> n <= k < |changed|)
    && (forall k :: 0 <= k < |changed| ==> Settled(changed[k], t0, t, k < n, k in failed))
    && (forall i :: 0 <= i < |jobs| && i !in which ==> At(t, jobs[i].dest) == At(t0, jobs[i].dest))
  }

  lemma UndoneFromAfter(changed: seq<Replacement>, jobs: seq<Job>, which: seq<nat>, t0: Tree, t: Tree, n: nat, failed: set<nat>,
                        s: Tree, ok: bool)
    requires JobsApart(jobs) && n < |changed| && UndoneFrom(changed, jobs, which, t0, t, n + 1, failed)
    requires OnlyJob(changed[n].job, t, s)
    requires Settled(changed[n], t0, s, false, !ok)
    ensures UndoneFrom(changed, jobs, which, t0, s, n, if ok then failed else failed + {n})
  {
    hide At, OnlyJob, JobsApart;
    OthersUntouched(jobs, which[n], t, s);
    var failed' := if ok then failed else failed + {n};
    forall k | 0 <= k < |changed|
      ensures Settled(changed[k], t0, s, k < n, k in failed')
    {
      if k != n {
        assert which[k] != which[n];
        assert Settled(changed[k], t0, t, k < n + 1, k in failed);
      }
    }
    assert which[n] in which;
  }

  ghost predicate AllBelow(which: seq<nat>, n: nat) {
    forall k :: 0 <= k < |which| ==> which[k] < n
  }

  /** The jobs whose product was put in place. */
  ghost function Shown(changed: seq<Replacement>, which: seq<nat>): set<nat>
    requires |which| == |changed|
  {
    set k | 0 <= k < |changed| && changed[k].installed :: which[k]
  }

  /** The destinations of all other jobs show nothing but what they held at the start. */
  ghost predicate OthersNotShown(jobs: seq<Job>, shown: set<nat>, t0: Tree, s: Tree) {
    forall i :: 0 <= i < |jobs| && i !in shown ==> NotShown(jobs[i], t0, s)
  }

  lemma NotShownAtFirst(changed: seq<Replacement>, jobs: seq<Job>, which: seq<nat>, t0: Tree, t: Tree)
    requires UndoneFrom(changed, jobs, which, t0, t, |changed|, {})
    ensures OthersNotShown(jobs, Shown(changed, which), t0, t)
  {
    hide At;
    forall i | 0 <= i < |jobs| && i !in Shown(changed, which)
      ensures NotShown(jobs[i], t0, t)
    {
      if i in which {
        var k :| 0 <= k < |which| && which[k] == i;
        assert Settled(changed[k], t0, t, true, false);
      }
    }
  }

  lemma NotShownAfter(jobs: seq<Job>, shown: set<nat>, j: nat, t0: Tree, t: Tree, s: Tree)
    requires JobsApart(jobs) && j < |jobs| && OnlyJob(jobs[j], t, s)
    requires OthersNotShown(jobs, shown, t0, t)
    requires j !in shown ==> NotShown(jobs[j], t0, s)
    ensures OthersNotShown(jobs, shown, t0, s)
  {
    hide At, OnlyJob, JobsApart;
    OthersUntouched(jobs, j, t, s);
    forall i | 0 <= i < |jobs| && i !in shown
      ensures NotShown(jobs[i], t0, s)
    {
      assert NotShown(jobs[i], t0, t);
    }
  }

  lemma NotShownThroughout(changed: seq<Replacement>, jobs: seq<Job>, which: seq<nat>, n: nat, t0: Tree, t: Tree, more: seq<Tree>, u: Tree)
    requires JobsApart(jobs) && Records(changed, jobs, which) && n < |changed|
    requires OthersNotShown(jobs, Shown(changed, which), t0, t)
    requires WorkedOn(changed[n].job, t, t0, more) && OnlyJob(changed[n].job, t, u)
    requires !changed[n].installed ==> NotShown(changed[n].job, t0, u)
    requires !changed[n].installed ==> forall k :: 0 <= k < |more| ==> NotShown(changed[n].job, t0, more[k])
    ensures forall k :: 0 <= k < |more| ==> OthersNotShown(jobs, Shown(changed, which), t0, more[k])
    ensures OthersNotShown(jobs, Shown(changed, which), t0, u)
  {
    hide OthersNotShown, NotShown, OnlyJob, JobsApart;
    forall k | 0 <= k < |more|
      ensures OthersNotShown(jobs, Shown(changed, which), t0, more[k])
    {
      NotShownAfter(jobs, Shown(changed, which), which[n], t0, t, more[k]);
    }
    NotShownAfter(jobs, Shown(changed, which), which[n], t0, t, u);
  }

  /** Undoes the recorded replacements, latest first, going on after a failure.
      Returns the positions whose undoing failed. */
  method Rollback(disk: Disk, changed: seq<Replacement>, ghost jobs: seq<Job>, ghost which: seq<nat>, ghost t0: Tree)
    returns (failed: set<nat>, ghost past: seq<Tree>)
    requires disk.Valid() && JobsApart(jobs)
    requires NothingLost(jobs, t0, disk.tree) && OnlyJobs(jobs, t0, disk.tree)
    requires UndoneFrom(changed, jobs, which, t0, disk.tree, |changed|, {})
    modifies disk
    ensures forall n :: Started(jobs, n, old(disk.tree)) ==> Started(jobs, n, disk.tree)
    ensures forall n :: AllBelow(which, n) && OnlyFirst(jobs, n, t0, old(disk.tree)) ==> OnlyFirst(jobs, n, t0, disk.tree)
    ensures disk.Valid() && disk.history == old(disk.history) + past
    ensures SafeThroughout(jobs, t0, past)
    ensures NothingLost(jobs, t0, disk.tree) && OnlyJobs(jobs, t0, disk.tree)
    ensures UndoneFrom(changed, jobs, which, t0, disk.tree, 0, failed)
    ensures forall k :: 0 <= k < |past| ==> OthersNotShown(jobs, Shown(changed, which), t0, past[k])
    ensures disk.failures >= old(disk.failures) && (failed != {} ==> disk.failures > old(disk.failures))
  {
    hide OthersNotShown, NotShown, Shown, At, OnlyJob, Kept, Closed, JobApart, ClearOf, NothingLost, OnlyJobs, SafeThroughout, WorkedOn,
         Started, OnlyFirst;
    failed, past := {}, [];
    SafeAtFirst(jobs, t0);
    NotShownAtFirst(changed, jobs, which, t0, disk.tree);
    var n := |changed|;
    while n > 0
      invariant 0 <= n <= |changed|
      invariant disk.failures >= old(disk.failures) && (failed != {} ==> disk.failures > old(disk.failures))
      invariant disk.Valid() && disk.history == old(disk.history) + past
      invariant SafeThroughout(jobs, t0, past)
      invariant NothingLost(jobs, t0, disk.tree) && OnlyJobs(jobs, t0, disk.tree)
      invariant UndoneFrom(changed, jobs, which, t0, disk.tree, n, failed)
      invariant forall n :: Started(jobs, n, old(disk.tree)) ==> Started(jobs, n, disk.tree)
      invariant forall n :: AllBelow(which, n) && OnlyFirst(jobs, n, t0, old(disk.tree)) ==> OnlyFirst(jobs, n, t0, disk.tree)
      invariant OthersNotShown(jobs, Shown(changed, which), t0, disk.tree)
      invariant forall k :: 0 <= k < |past| ==> OthersNotShown(jobs, Shown(changed, which), t0, past[k])
    {
      n := n - 1;
      ghost var t, h := disk.tree, disk.history;
      var ok;
      ghost var more;
      ok, more := UndoOne(disk, changed[n], t0);
      forall m | Started(jobs, m, t)
        ensures Started(jobs, m, disk.tree)
      {
        StartedStays(jobs, which[n], m, t, disk.tree);
      }
      forall m: nat | AllBelow(which, m) && OnlyFirst(jobs, m, t0, t)
        ensures OnlyFirst(jobs, m, t0, disk.tree)
      {
        OnlyFirstAfter(jobs, which[n], m, t0, t, disk.tree);
      }
      SafeAfter(jobs, which[n], t0, t, past, more);
      NothingLostAfter(jobs, which[n], t0, t, disk.tree);
      OnlyJobsAfter(jobs, which[n], t0, t, disk.tree);
      UndoneFromAfter(changed, jobs, which, t0, t, n, failed, disk.tree, ok);
      NotShownThroughout(changed, jobs, which, n, t0, t, more, disk.tree);
      Chain(old(disk.history), past, h, more, disk.history);
      past := past + more;
      if !ok {
        failed := failed + {n};
      }
    }
  }

  // ---- the commit ----

  /** Either every product is in place, or the commit failed; it reports the jobs
      it could not undo and whether their backups have to be kept. */
  datatype CommitResult = Committed | Failed(unrestored: set<nat>) {
    predicate Retained() {
      Failed? && unrestored != {}
    }
  }

  /** A job not yet started is untouched; a finished one has its product in place
      and its original content saved. */
  ghost predicate Reached(job: Job, t0: Tree, t: Tree, finished: bool, backup: Option<Path>) {
    if finished then
      Saved(job, t0, t, backup) && At(t, job.dest) == At(t0, job.source)
    else
      At(t, job.dest) == At(t0, job.dest) && At(t, job.source) == At(t0, job.source)
  }

  /** The first |changed| jobs are finished and recorded, the others not started. */
  ghost predicate CommittedUpTo(jobs: seq<Job>, changed: seq<Replacement>, t0: Tree, t: Tree) {
    && |changed| <= |jobs|
    && (forall k :: 0 <= k < |changed| ==> changed[k] == Replacement(jobs[k], changed[k].backup, true))
    && (forall k :: 0 <= k < |jobs| ==>
          Reached(jobs[k], t0, t, k < |changed|, if k < |changed| then changed[k].backup else None))
  }

  ghost function Numbers(n: nat): (which: seq<nat>)
    ensures |which| == n && forall k :: 0 <= k < n ==> which[k] == k
    ensures forall k: nat :: k in which <==> k < n
  {
    if n == 0 then [] else Numbers(n - 1) + [n - 1]
  }

  /** What a step did to a job untouched so far, seen from the start of the commit. */
  lemma SinceStart(job: Job, t0: Tree, t: Tree, s: Tree, step: Step, backup: Option<Path>, more: seq<Tree>)
    requires At(t, job.dest) == At(t0, job.dest) && At(t, job.source) == At(t0, job.source)
    requires WorkedOn(job, t, t, more)
    requires step == NotStarted ==> Ready(job, t, s)
    requires step == Removed ==> Cleared(job, t, s, backup)
    requires step == Installed ==> InPlace(job, t, s, backup)
    ensures WorkedOn(job, t, t0, more) && OnlyJob(job, t, s) && Kept(job, t0, s)
    ensures step == NotStarted ==> At(s, job.dest) == At(t0, job.dest) && At(s, job.source) == At(t0, job.source)
    ensures step == Removed ==> Undoable(Replacement(job, backup, false), t0, s)
    ensures step == Installed ==> Reached(job, t0, s, true, backup)
  {
    hide At, OnlyJob;
  }

  /** Work on another job changes nothing for this one. */
  lemma StillReached(job: Job, t0: Tree, t: Tree, s: Tree, finished: bool, backup: Option<Path>)
    requires Reached(job, t0, t, finished, backup)
    requires At(s, job.dest) == At(t, job.dest)
    requires At(s, job.source) == At(t, job.source)
    requires At(s, job.backup) == At(t, job.backup)
    ensures Reached(job, t0, s, finished, backup)
    ensures finished ==> Undoable(Replacement(job, backup, true), t0, s)
    ensures !finished ==> At(s, job.dest) == At(t0, job.dest)
  {
    hide At;
  }

  /** Undoing can begin: after the finished jobs, a last one may have been begun. */
  lemma ReadyToUndo(jobs: seq<Job>, changed: seq<Replacement>, t0: Tree, t: Tree, s: Tree, begun: seq<Replacement>)
    requires JobsApart(jobs) && CommittedUpTo(jobs, changed, t0, t) && |changed| < |jobs|
    requires OnlyJob(jobs[|changed|], t, s)
    requires begun == [] ==> At(s, jobs[|changed|].dest) == At(t0, jobs[|changed|].dest)
    requires begun != [] ==> |begun| == 1 && begun[0].job == jobs[|changed|] && Undoable(begun[0], t0, s)
    ensures var started := changed + begun;
      UndoneFrom(started, jobs, Numbers(|started|), t0, s, |started|, {})
  {
    hide At, OnlyJob, JobsApart, Reached, Undoable, Numbers;
    var n := |changed|;
    OthersUntouched(jobs, n, t, s);
    var started := changed + begun;
    forall k | 0 <= k < |started|
      ensures Settled(started[k], t0, s, true, false)
    {
      if k < n {
        StillReached(jobs[k], t0, t, s, true, changed[k].backup);
      }
    }
    forall i | 0 <= i < |jobs| && i !in Numbers(|started|)
      ensures At(s, jobs[i].dest) == At(t0, jobs[i].dest)
    {
      if i != n {
        StillReached(jobs[i], t0, t, s, false, None);
      }
    }
  }

  lemma OneMoreCommitted(jobs: seq<Job>, changed: seq<Replacement>, t0: Tree, t: Tree, s: Tree, backup: Option<Path>)
    requires JobsApart(jobs) && CommittedUpTo(jobs, changed, t0, t) && |changed| < |jobs|
    requires OnlyJob(jobs[|changed|], t, s) && Reached(jobs[|changed|], t0, s, true, backup)
    ensures CommittedUpTo(jobs, changed + [Replacement(jobs[|changed|], backup, true)], t0, s)
  {
    hide At, OnlyJob, JobsApart, Reached;
    var n := |changed|;
    OthersUntouched(jobs, n, t, s);
    var changed' := changed + [Replacement(jobs[n], backup, true)];
    forall k | 0 <= k < |jobs|
      ensures Reached(jobs[k], t0, s, k < |changed'|, if k < |changed'| then changed'[k].backup else None)
    {
      if k != n {
        StillReached(jobs[k], t0, t, s, k < n, if k < n then changed[k].backup else None);
      }
    }
  }

  /** What a commit promises, whatever fails on the way. */
  ghost predicate AllOrNothing(jobs: seq<Job>, t0: Tree, t: Tree, result: CommitResult) {
    match result
    case Committed => forall i :: 0 <= i < |jobs| ==> At(t, jobs[i].dest) == At(t0, jobs[i].source)
    case Failed(unrestored) =>
      && (forall i :: 0 <= i < |jobs| && i !in unrestored ==> At(t, jobs[i].dest) == At(t0, jobs[i].dest))
      && (forall i :: 0 <= i < |jobs| && i in unrestored ==>
            At(t0, jobs[i].dest) != map[] ==> At(t, jobs[i].backup) == At(t0, jobs[i].dest))
  }

  lemma NumbersBelow(n: nat, m: nat)
    requires n <= m
    ensures AllBelow(Numbers(n), m)
  {
  }

  lemma NoneStarted(jobs: seq<Job>, t: Tree)
    ensures Started(jobs, 0, t)
  {
  }

  lemma OneMoreStarted(jobs: seq<Job>, n: nat, t: Tree)
    requires Started(jobs, n, t) && n < |jobs| && HasDirectory(t, jobs[n].dest)
    ensures Started(jobs, n + 1, t)
  {
  }

  lemma AfterRollback(jobs: seq<Job>, changed: seq<Replacement>, t0: Tree, t: Tree, failed: set<nat>)
    requires UndoneFrom(changed, jobs, Numbers(|changed|), t0, t, 0, failed)
    ensures AllOrNothing(jobs, t0, t, Failed(failed))
  {
    hide At;
    forall i | 0 <= i < |jobs|
      ensures i !in failed ==> At(t, jobs[i].dest) == At(t0, jobs[i].dest)
      ensures i in failed && At(t0, jobs[i].dest) != map[] ==> At(t, jobs[i].backup) == At(t0, jobs[i].dest)
    {
      if i < |changed| {
        assert Numbers(|changed|)[i] == i;
        assert Settled(changed[i], t0, t, false, i in failed);
      }
    }
  }

  lemma NoneCommitted(jobs: seq<Job>, t: Tree)
    ensures CommittedUpTo(jobs, [], t, t)
  {
    hide At;
  }

  lemma NotYetReached(jobs: seq<Job>, changed: seq<Replacement>, t0: Tree, t: Tree)
    requires CommittedUpTo(jobs, changed, t0, t) && |changed| < |jobs|
    ensures var job := jobs[|changed|]; At(t, job.dest) == At(t0, job.dest) && At(t, job.source) == At(t0, job.source)
  {
    hide At;
    assert Reached(jobs[|changed|], t0, t, false, None);
  }

  lemma AllCommitted(jobs: seq<Job>, changed: seq<Replacement>, t0: Tree, t: Tree)
    requires CommittedUpTo(jobs, changed, t0, t) && |changed| == |jobs|
    ensures AllOrNothing(jobs, t0, t, Committed)
  {
    hide At;
    assert forall k :: 0 <= k < |jobs| ==> Reached(jobs[k], t0, t, true, changed[k].backup);
  }

  /** Replaces every destination by its staged product, or undoes what it did. */
  method Commit(disk: Disk, jobs: seq<Job>) returns (result: CommitResult, ghost started: nat, ghost touched: nat, ghost past: seq<Tree>)
    requires disk.Valid() && JobsApart(jobs)
    modifies disk
    ensures disk.Valid() && disk.history == old(disk.history) + past
    ensures AllOrNothing(jobs, old(disk.tree), disk.tree, result)
    ensures SafeThroughout(jobs, old(disk.tree), past)
    ensures NothingLost(jobs, old(disk.tree), disk.tree) && OnlyJobs(jobs, old(disk.tree), disk.tree)
    ensures Started(jobs, started, disk.tree) && (result == Committed ==> started == |jobs|)
    ensures OnlyFirst(jobs, touched, old(disk.tree), disk.tree) && started <= touched <= started + 1
    ensures disk.failures >= old(disk.failures) && (result.Failed? ==> disk.failures > old(disk.failures))
    ensures result.Retained() ==> disk.failures > old(disk.failures) + 1
  {
    hide At, OnlyJob, Kept, Closed, JobApart, ClearOf, NothingLost, OnlyJobs, SafeThroughout, WorkedOn, Ready, Cleared, InPlace, Undoable, Started,
         OnlyFirst, AllBelow, CommittedUpTo, Reached, UndoneFrom, AllOrNothing, HasDirectory;
    ghost var t0 := disk.tree;
    NoneCommitted(jobs, t0);
    SafeAtFirst(jobs, t0);
    NoneStarted(jobs, t0);
    OnlyNone(jobs, t0);
    started, touched := 0, 0;
    var changed: seq<Replacement> := [];
    past := [];
    while |changed| < |jobs|
      invariant disk.failures >= old(disk.failures)
      invariant disk.Valid() && disk.history == old(disk.history) + past
      invariant |changed| <= |jobs| && CommittedUpTo(jobs, changed, t0, disk.tree)
      invariant SafeThroughout(jobs, t0, past)
      invariant NothingLost(jobs, t0, disk.tree) && OnlyJobs(jobs, t0, disk.tree)
      invariant started == touched == |changed| && Started(jobs, started, disk.tree) && OnlyFirst(jobs, started, t0, disk.tree)
    {
      var i := |changed|;
      ghost var t, h := disk.tree, disk.history;
      NotYetReached(jobs, changed, t0, t);
      ghost var more;
      var step, backup;
      step, backup, more := ReplaceOne(disk, jobs[i]);
      SinceStart(jobs[i], t0, t, disk.tree, step, backup, more);
      SafeAfter(jobs, i, t0, t, past, more);
      NothingLostAfter(jobs, i, t0, t, disk.tree);
      OnlyJobsAfter(jobs, i, t0, t, disk.tree);
      StartedStays(jobs, i, started, t, disk.tree);
      OnlyFirstMore(jobs, i, t0, t);
      OnlyFirstAfter(jobs, i, i + 1, t0, t, disk.tree);
      touched := touched + 1;
      if step != NotStarted {
        OneMoreStarted(jobs, started, disk.tree);
        started := started + 1;
      }
      Chain(old(disk.history), past, h, more, disk.history);
      past := past + more;
      h := disk.history;
      if step != Installed {
        var begun := if step == Removed then [Replacement(jobs[i], backup, false)] else [];
        ReadyToUndo(jobs, changed, t0, t, disk.tree, begun);
        changed := changed + begun;
        var failed;
        NumbersBelow(|changed|, touched);
        failed, more := Rollback(disk, changed, jobs, Numbers(|changed|), t0);
        AfterRollback(jobs, changed, t0, disk.tree, failed);
        SafeConcat(jobs, t0, past, more);
        Chain(old(disk.history), past, h, more, disk.history);
        past := past + more;
        return Failed(failed), started, touched, past;
      }
      OneMoreCommitted(jobs, changed, t0, t, disk.tree, backup);
      changed := changed + [Replacement(jobs[i], backup, true)];
    }
    result := Committed;
    AllCommitted(jobs, changed, t0, disk.tree);
  }
}
