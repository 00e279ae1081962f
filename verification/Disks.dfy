/** A disk whose operations may fail at any time, as the injectable operations
    of a generation commit may, and which remembers every tree it has held.
 */
module Disks {
  import opened FileTree

  datatype Presence = Exists | Missing | Unknown

  /** What an interrupted recursive removal of p may leave of t. */
  predicate MayLeave(t: Tree, u: Tree, p: Path) {
    Closed(u) && forall q :: q in t.Keys + u.Keys && !Within(q, p) ==> Agree(t, u, q)
  }

  /** Two stretches of history make one. */
  lemma Chain(start: seq<Tree>, past: seq<Tree>, middle: seq<Tree>, more: seq<Tree>, end: seq<Tree>)
    requires middle == start + past && end == middle + more
    ensures end == start + (past + more)
  {
  }

  class Disk {
    var tree: Tree
    /** Every tree this disk has held, oldest first. */
    ghost var history: seq<Tree>
    /** How many operations have reported a failure. */
    ghost var failures: nat

    ghost predicate Valid()
      reads this`tree, this`history
    {
      Closed(tree) && |history| > 0 && history[|history| - 1] == tree
    }

    /** Looks a path up; an error that is not "does not exist" says nothing. */
    method Lstat(p: Path) returns (r: Presence)
      modifies this`failures
      ensures r == Exists ==> p in tree
      ensures r == Missing ==> p !in tree
      ensures failures == old(failures) + if r == Unknown then 1 else 0
    {
      var fault: bool := *;
      r := if fault then Unknown else if p in tree then Exists else Missing;
      failures := failures + if fault then 1 else 0;
    }

    /** Moves src to dst, or fails and changes nothing. */
    method Rename(src: Path, dst: Path) returns (ok: bool)
      requires Valid()
      modifies this
      ensures Valid() && history == old(history) + [tree]
      ensures failures == old(failures) + if ok then 0 else 1
      ensures ok ==> CanMove(old(tree), src, dst) && tree == Move(old(tree), src, dst)
      ensures !ok ==> tree == old(tree)
    {
      var fault: bool := *;
      ok := !fault && CanMove(tree, src, dst);
      if ok {
        MoveClosed(tree, src, dst);
        tree := Move(tree, src, dst);
      }
      history := history + [tree];
      failures := failures + if ok then 0 else 1;
    }

    /** Removes a file or an empty directory, or fails and changes nothing. */
    method Remove(p: Path) returns (ok: bool)
      requires Valid()
      modifies this
      ensures Valid() && history == old(history) + [tree]
      ensures failures == old(failures) + if ok then 0 else 1
      ensures ok ==> tree == Without(old(tree), p)
      ensures !ok ==> tree == old(tree)
    {
      var fault: bool := *;
      ok := !fault && p in tree && forall q :: q in tree && Within(q, p) ==> q == p;
      if ok {
        WithoutEffect(tree, p);
        tree := Without(tree, p);
      }
      history := history + [tree];
      failures := failures + if ok then 0 else 1;
    }

    /** Removes everything at or below p, or fails and leaves something
        arbitrary there and nothing else changed. */
    method RemoveAll(p: Path) returns (ok: bool)
      requires Valid()
      modifies this
      ensures Valid() && history == old(history) + [tree]
      ensures failures == old(failures) + if ok then 0 else 1
      ensures SameOutside(old(tree), tree, p)
      ensures ok ==> tree == Without(old(tree), p)
    {
      WithoutEffect(tree, p);
      var fault: bool := *;
      ok := !fault;
      if ok {
        tree := Without(tree, p);
      } else {
        // Whatever the removal got through before it failed.
        var leftover: Tree := *;
        if MayLeave(tree, leftover, p) {
          tree := leftover;
        }
      }
      history := history + [tree];
      failures := failures + if ok then 0 else 1;
    }

    /** Creates the missing directories of dir; on failure only some of them. */
    method MkdirAll(dir: Path) returns (ok: bool)
      requires Valid()
      modifies this
      ensures Valid() && history == old(history) + [tree]
      ensures failures == old(failures) + if ok then 0 else 1
      ensures AddsDirectories(old(tree), tree, dir)
      ensures ok ==> dir in tree && tree[dir] == Directory
    {
      var made: int := *;
      ok := made == |dir|;
      if 0 <= made <= |dir| && NoFileOnTheWay(tree, dir, made) {
        MakeDirectoriesEffect(tree, dir, made);
        assert dir[..|dir|] == dir;
        tree := MakeDirectories(tree, dir, made);
      } else {
        ok := false;
      }
      history := history + [tree];
      failures := failures + if ok then 0 else 1;
    }

    /** Writes a file; a failure may leave a file with other content. */
    method WriteFile(p: Path, data: seq<bv8>) returns (ok: bool)
      requires Valid()
      modifies this
      ensures Valid() && history == old(history) + [tree]
      ensures failures == old(failures) + if ok then 0 else 1
      ensures SameOutside(old(tree), tree, p)
      ensures ok ==> p in tree && tree[p] == File(data)
    {
      var fault: bool := *;
      var partial: seq<bv8> := *;
      var possible := CanWrite(tree, p);
      ok := !fault && possible;
      if possible {
        WriteEffect(tree, p, if ok then data else partial);
        tree := tree[p := File(if ok then data else partial)];
      }
      history := history + [tree];
      failures := failures + if ok then 0 else 1;
    }
  }
}
