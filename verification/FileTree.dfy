/** File systems as values: finite maps from paths to nodes, and the effect of
    one rename, one removal and one "mkdir -p" on such a map.
 */
module FileTree {

  /** A path is its list of components; the empty path is the volume root. */
  type Path = seq<string>

  datatype Node = File(data: seq<bv8>) | Directory

  type Tree = map<Path, Node>

  /** q is p or lies inside p. */
  predicate Within(q: Path, p: Path) {
    p <= q
  }

  /** Neither path contains the other. */
  predicate Apart(p: Path, q: Path) {
    !Within(p, q) && !Within(q, p)
  }

  lemma ApartShareNothing(p: Path, r: Path)
    requires Apart(p, r)
    ensures forall q :: Within(q, p) ==> !Within(q, r)
  {
    forall q | Within(q, p)
      ensures !Within(q, r)
    {
      assert if |p| <= |r| then r[..|p|] == q[..|p|] || !Within(q, r) else p[..|r|] == q[..|r|] || !Within(q, r);
    }
  }

  lemma WithinUnder(base: Path, p: Path, q: Path)
    ensures Within(base + p, base + q) <==> Within(p, q)
  {
    if Within(base + p, base + q) {
      assert q == (base + q)[|base|..] && p == (base + p)[|base|..];
      assert forall k :: 0 <= k < |q| ==> q[k] == (base + q)[|base| + k] == (base + p)[|base| + k] == p[k];
    }
  }

  lemma ApartUnder(base: Path, p: Path, q: Path)
    requires Apart(p, q)
    ensures Apart(base + p, base + q)
  {
    WithinUnder(base, p, q);
    WithinUnder(base, q, p);
  }

  /** What is stored at p: the subtree below p, keyed by the remaining path.
      It is empty exactly when nothing exists at or below p. */
  ghost function At(t: Tree, p: Path): Tree {
    var suffixes := set q | q in t && Within(q, p) :: q[|p|..];
    assert forall q :: q in t && Within(q, p) ==> p + q[|p|..] == q;
    map s | s in suffixes :: t[p + s]
  }

  lemma Contents(t: Tree, p: Path)
    ensures forall s :: s in At(t, p) <==> p + s in t
    ensures forall s :: s in At(t, p) ==> At(t, p)[s] == t[p + s]
  {
    assert forall q :: q in t && Within(q, p) ==> p + q[|p|..] == q;
    assert forall s :: p + s in t ==> Within(p + s, p) && (p + s)[|p|..] == s;
  }

  /** Two subtrees with the same entries are the same. */
  lemma SameContents(t: Tree, p: Path, u: Tree, q: Path)
    requires forall s :: (p + s in t <==> q + s in u) && (p + s in t ==> t[p + s] == u[q + s])
    ensures At(t, p) == At(u, q)
  {
    Contents(t, p);
    Contents(u, q);
  }

  /** Every proper prefix of an existing path is a directory. */
  predicate Closed(t: Tree) {
    forall q, n :: q in t && 0 <= n < |q| ==> q[..n] in t && t[q[..n]] == Directory
  }

  lemma AbsentMeansEmpty(t: Tree, p: Path)
    requires Closed(t) && p !in t
    ensures At(t, p) == map[]
  {
    forall s
      ensures p + s !in t
    {
      if s == [] {
        assert p + s == p;
      } else {
        assert (p + s)[..|p|] == p;
      }
    }
    Contents(t, p);
  }

  lemma PresentMeansNonEmpty(t: Tree, p: Path)
    requires p in t
    ensures At(t, p) != map[]
  {
    Contents(t, p);
    assert p + [] == p;
    assert [] in At(t, p);
  }

  /** t and u agree on the path q. */
  predicate Agree(t: Tree, u: Tree, q: Path) {
    (q in t <==> q in u) && (q in t ==> t[q] == u[q])
  }

  /** Subtrees are determined by the paths at or below them. */
  lemma SameAt(t: Tree, u: Tree, p: Path)
    requires forall q :: Within(q, p) ==> Agree(t, u, q)
    ensures At(t, p) == At(u, p)
  {
    forall s
      ensures Agree(t, u, p + s)
    {
      assert Within(p + s, p);
    }
    SameContents(t, p, u, p);
  }

  // ---- removal ----

  function Without(t: Tree, p: Path): (u: Tree)
    ensures forall q :: q in u <==> q in t && !Within(q, p)
    ensures forall q :: q in u ==> u[q] == t[q]
  {
    map q | q in t && !Within(q, p) :: t[q]
  }

  /** u is t except for what is at or below p. */
  ghost predicate SameOutside(t: Tree, u: Tree, p: Path) {
    forall q :: !Within(q, p) ==> Agree(t, u, q)
  }

  lemma SameOutsideSelf(t: Tree, p: Path)
    ensures SameOutside(t, t, p)
  {
  }

  lemma SameOutsideKeeps(t: Tree, u: Tree, p: Path, r: Path)
    requires SameOutside(t, u, p) && Apart(p, r)
    ensures At(t, r) == At(u, r)
  {
    ApartShareNothing(r, p);
    SameAt(t, u, r);
  }

  lemma WithoutEffect(t: Tree, p: Path)
    requires Closed(t)
    ensures Closed(Without(t, p))
    ensures SameOutside(t, Without(t, p), p)
    ensures At(Without(t, p), p) == map[]
  {
    assert forall s :: Within(p + s, p);
    Contents(Without(t, p), p);
  }

  // ---- writing a file ----

  predicate CanWrite(t: Tree, p: Path) {
    && |p| > 0 && p[..|p| - 1] in t && t[p[..|p| - 1]] == Directory
    && (p in t ==> t[p].File?)
  }

  lemma WriteEffect(t: Tree, p: Path, data: seq<bv8>)
    requires Closed(t) && CanWrite(t, p)
    ensures Closed(t[p := File(data)]) && SameOutside(t, t[p := File(data)], p)
  {
    var u, parent := t[p := File(data)], p[..|p| - 1];
    forall q, n | q in u && 0 <= n < |q|
      ensures q[..n] in u && u[q[..n]] == Directory
    {
      if q == p {
        assert q[..n] == if n < |parent| then parent[..n] else parent;
      }
    }
  }

  lemma SameOutsideTransitive(t: Tree, u: Tree, v: Tree, p: Path)
    requires SameOutside(t, u, p) && SameOutside(u, v, p)
    ensures SameOutside(t, v, p)
  {
    forall q | !Within(q, p)
      ensures Agree(t, v, q)
    {
      assert Agree(t, u, q) && Agree(u, v, q);
    }
  }

  /** A change inside part of p is a change inside p. */
  lemma SameOutsideWider(t: Tree, u: Tree, p: Path, wider: Path)
    requires SameOutside(t, u, p) && Within(p, wider)
    ensures SameOutside(t, u, wider)
  {
    assert forall q :: Within(q, p) ==> Within(q, wider);
  }

  /** Making directories below an existing one changes nothing outside it. */
  lemma MkdirInside(t: Tree, u: Tree, dir: Path, p: Path)
    requires Closed(t) && p in t && Within(dir, p) && AddsDirectories(t, u, dir)
    ensures SameOutside(t, u, p)
  {
    forall q | !Within(q, p)
      ensures Agree(t, u, q)
    {
      if Within(dir, q) {
        assert q == dir[..|q|] && p == dir[..|p|];
        assert |q| < |p| ==> q == p[..|q|];
      }
    }
  }

  // ---- rename ----

  /** When a rename may succeed: the source exists, the destination's parent is
      a directory, neither path contains the other, and an existing destination
      is a file under a file, or an empty directory under a directory. */
  predicate CanMove(t: Tree, src: Path, dst: Path) {
    && src in t
    && Apart(src, dst)
    && |dst| > 0 && dst[..|dst| - 1] in t && t[dst[..|dst| - 1]] == Directory
    && (dst in t ==> t[src].File? == t[dst].File? && forall q :: q in t && Within(q, dst) ==> q == dst)
  }

  /** Where the contents of q come from when src is renamed to dst. */
  function Origin(src: Path, dst: Path, q: Path): Path
    requires Within(q, dst)
  {
    src + q[|dst|..]
  }

  /** The tree after a successful rename. */
  function Move(t: Tree, src: Path, dst: Path): (u: Tree)
    requires CanMove(t, src, dst)
    ensures forall q :: Within(q, dst) ==> (q in u <==> Origin(src, dst, q) in t)
    ensures forall q :: Within(q, dst) && q in u ==> u[q] == t[Origin(src, dst, q)]
    ensures forall q :: Within(q, src) ==> q !in u
    ensures forall q :: !Within(q, src) && !Within(q, dst) ==> Agree(t, u, q)
  {
    var moved := set q | q in t && Within(q, src) :: Origin(dst, src, q);
    assert forall q :: q in moved ==> Within(q, dst);
    assert forall q :: Within(q, dst) ==> Within(Origin(src, dst, q), src) && Origin(dst, src, Origin(src, dst, q)) == q;
    assert forall q :: Within(q, src) ==> Origin(src, dst, Origin(dst, src, q)) == q;
    ApartShareNothing(src, dst);
    map q | q in t.Keys + moved && (q in moved || (!Within(q, src) && !Within(q, dst))) ::
      if q in moved then t[Origin(src, dst, q)] else t[q]
  }

  lemma MoveEffect(t: Tree, src: Path, dst: Path)
    requires CanMove(t, src, dst)
    ensures At(Move(t, src, dst), dst) == At(t, src)
    ensures At(Move(t, src, dst), src) == map[]
  {
    var u := Move(t, src, dst);
    assert At(u, src) == map[] by {
      assert forall s :: Within(src + s, src);
      Contents(u, src);
    }
    hide CanMove, At;
    forall s
      ensures dst + s in u <==> src + s in t
      ensures src + s in t ==> u[dst + s] == t[src + s]
    {
      assert (dst + s)[|dst|..] == s;
      assert Within(dst + s, dst) && Origin(src, dst, dst + s) == src + s;
    }
    SameContents(u, dst, t, src);
  }

  lemma MoveKeeps(t: Tree, src: Path, dst: Path, r: Path)
    requires CanMove(t, src, dst) && Apart(src, r) && Apart(dst, r)
    ensures At(Move(t, src, dst), r) == At(t, r)
  {
    ApartShareNothing(r, src);
    ApartShareNothing(r, dst);
    SameAt(t, Move(t, src, dst), r);
  }

  lemma MoveClosed(t: Tree, src: Path, dst: Path)
    requires Closed(t) && CanMove(t, src, dst)
    ensures Closed(Move(t, src, dst))
  {
    var u := Move(t, src, dst);
    var parent := dst[..|dst| - 1];
    forall q, n | q in u && 0 <= n < |q|
      ensures q[..n] in u && u[q[..n]] == Directory
    {
      var p := q[..n];
      if Within(q, dst) {
        if |dst| <= n {
          assert Origin(src, dst, p) == Origin(src, dst, q)[..|src| + n - |dst|];
        } else {
          assert p == if n < |parent| then parent[..n] else parent;
          assert p <= dst && !Within(p, src) && !Within(p, dst);
        }
      } else {
        assert p <= q && !Within(p, src) && !Within(p, dst);
      }
    }
  }

  // ---- mkdir -p ----

  /** u is t with some missing prefixes of dir added as directories. */
  ghost predicate AddsDirectories(t: Tree, u: Tree, dir: Path) {
    && (forall q :: q in t ==> q in u && u[q] == t[q])
    && (forall q :: q in u && q !in t ==> Within(dir, q) && u[q] == Directory)
  }

  /** t with the first n prefixes of dir added as directories. */
  function MakeDirectories(t: Tree, dir: Path, n: nat): (u: Tree)
    requires n <= |dir|
  {
    var added := set k | 0 <= k <= n :: dir[..k];
    map q | q in t.Keys + added :: if q in t then t[q] else Directory
  }

  /** No prefix of dir of length at most n is a file. */
  predicate NoFileOnTheWay(t: Tree, dir: Path, n: nat)
    requires n <= |dir|
  {
    forall k :: 0 <= k <= n && dir[..k] in t ==> t[dir[..k]] == Directory
  }

  lemma MakeDirectoriesEffect(t: Tree, dir: Path, n: nat)
    requires Closed(t) && n <= |dir| && NoFileOnTheWay(t, dir, n)
    ensures var u := MakeDirectories(t, dir, n);
      Closed(u) && AddsDirectories(t, u, dir) && dir[..n] in u && u[dir[..n]] == Directory
  {
    var u := MakeDirectories(t, dir, n);
    forall q, m | q in u && 0 <= m < |q|
      ensures q[..m] in u && u[q[..m]] == Directory
    {
      if q !in t {
        var k :| 0 <= k <= n && q == dir[..k];
        assert q[..m] == dir[..m];
      }
    }
  }

  lemma AddsDirectoriesKeeps(t: Tree, u: Tree, dir: Path, r: Path)
    requires AddsDirectories(t, u, dir) && !Within(dir, r)
    ensures At(t, r) == At(u, r)
  {
    assert forall q :: Within(dir, q) && Within(q, r) ==> Within(dir, r);
    SameAt(t, u, r);
  }

  lemma InsideParent(p: Path, r: Path)
    requires |p| > 0
    ensures Within(p[..|p| - 1], r) ==> Within(p, r) && p != r
  {
    assert Within(p[..|p| - 1], r) ==> r == p[..|p| - 1][..|r|] == p[..|r|];
  }

  /** The directory that p belongs in is missing, and nothing is in the way of it. */
  predicate MustBeMade(t: Tree, p: Path) {
    |p| > 0 && p[..|p| - 1] !in t && NoFileOnTheWay(t, p[..|p| - 1], |p| - 1)
  }

  /** A directory found on the way to p was there, unless it had to be made. */
  lemma OnTheWayWasThere(t0: Tree, t: Tree, p: Path, q: Path)
    requires Closed(t0) && Closed(t) && q in t && Within(p, q) && q != p && !MustBeMade(t0, p)
    requires forall r :: Within(p, r) && r != p && r in t0 ==> Agree(t0, t, r)
    ensures q in t0
  {
    var parent := p[..|p| - 1];
    assert q == parent[..|q|] && (|q| == |parent| ==> q == parent);
    forall n | 0 <= n < |q|
      ensures parent[..n] in t && t[parent[..n]] == Directory
    {
      assert parent[..n] == q[..n];
    }
    if parent !in t0 {
      var k :| 0 <= k <= |parent| && parent[..k] in t0 && t0[parent[..k]] != Directory;
      assert Within(p, parent[..k]) && Agree(t0, t, parent[..k]);
      assert |q| <= k;
      assert |q| == k ==> parent[..k] == q;
      assert |q| < k ==> parent[..k][..|q|] == q;
    }
  }
}
