/** The files of the reviewed slice and the order in which they are written.
 */
module SlicePaths {
  import opened Sequences
  import opened FileTree

  const MANIFEST: Path := ["bindings", "slice.manifest.json"]

  const ARTIFACTS: seq<Path> := [
    ["bindings", "wdk", "nt", "zavailability_kernel.go"],
    ["bindings", "wdk", "nt", "ztypes_nt.go"],
    ["bindings", "win32", "foundation", "zavailability_types.go"],
    ["bindings", "win32", "foundation", "ztypes_base.go"],
    ["bindings", "win32", "foundation", "ztypes_union_386.go"],
    ["bindings", "win32", "foundation", "ztypes_union_64.go"],
    ["bindings", "win32", "kernel32", "zavailability_kernel.go"],
    ["bindings", "win32", "kernel32", "zcallbacks_locale.go"],
    ["bindings", "win32", "kernel32", "zconstants_memory.go"],
    ["bindings", "win32", "kernel32", "zfunctions_kernel_windows.go"],
    ["bindings", "win32", "kernel32", "zfunctions_qpc_windows_386.go"],
    ["bindings", "win32", "kernel32", "zfunctions_qpc_windows_64.go"],
    ["bindings", "winrt", "windows", "foundation", "zclasses_uri.go"]
  ]

  predicate IsSlicePath(p: Path) {
    p == MANIFEST || p in ARTIFACTS
  }

  function WithoutManifest(reviewed: seq<Path>): (slice: seq<Path>)
    ensures forall p :: p in slice <==> p in reviewed && p != MANIFEST
  {
    if reviewed == [] then
      []
    else
      var last := reviewed[|reviewed| - 1];
      WithoutManifest(reviewed[..|reviewed| - 1]) + (if last == MANIFEST then [] else [last])
  }

  lemma {:induction false} WithoutManifestNoRepeats(reviewed: seq<Path>)
    requires NoRepeats(reviewed)
    ensures NoRepeats(WithoutManifest(reviewed))
  {
    if reviewed != [] {
      WithoutManifestNoRepeats(reviewed[..|reviewed| - 1]);
      var rest := WithoutManifest(reviewed[..|reviewed| - 1]);
      assert forall i :: 0 <= i < |rest| ==> rest[i] in reviewed[..|reviewed| - 1];
    }
  }

  /** The order in which slice files are replaced: as listed, without the manifest. */
  method SliceOrder(reviewed: seq<Path>) returns (slice: seq<Path>)
    ensures slice == WithoutManifest(reviewed)
  {
    slice := [];
    for i := 0 to |reviewed|
      invariant slice == WithoutManifest(reviewed[..i])
    {
      assert reviewed[..i + 1][..i] == reviewed[..i];
      if reviewed[i] != MANIFEST {
        slice := slice + [reviewed[i]];
      }
    }
    assert reviewed[..|reviewed|] == reviewed;
  }

  lemma {:induction false} WithoutManifestConcat(a: seq<Path>, b: seq<Path>)
    ensures WithoutManifest(a + b) == WithoutManifest(a) + WithoutManifest(b)
  {
    if b == [] {
      assert a + b == a;
    } else {
      assert (a + b)[..|a + b| - 1] == a + b[..|b| - 1];
      WithoutManifestConcat(a, b[..|b| - 1]);
    }
  }

  lemma {:induction false} NoManifest(a: seq<Path>)
    requires MANIFEST !in a
    ensures WithoutManifest(a) == a
  {
    if a != [] {
      NoManifest(a[..|a| - 1]);
    }
  }

  lemma ManifestFirst(b: seq<Path>)
    requires MANIFEST !in b
    ensures WithoutManifest([MANIFEST] + b) == b
  {
    assert WithoutManifest([MANIFEST]) == [];
    WithoutManifestConcat([MANIFEST], b);
    NoManifest(b);
  }

  lemma ManifestBetween(a: seq<Path>, b: seq<Path>)
    requires MANIFEST !in a && MANIFEST !in b
    ensures WithoutManifest(a + ([MANIFEST] + b)) == a + b
  {
    hide WithoutManifest;
    ManifestFirst(b);
    WithoutManifestConcat(a, [MANIFEST] + b);
    NoManifest(a);
  }

  lemma Reordered(a: seq<Path>, p: Path, b: seq<Path>)
    ensures multiset(a + b + [p]) == multiset(a + ([p] + b))
  {
    assert multiset(a + b + [p]) == multiset(a) + multiset(b) + multiset{p};
    assert multiset(a + ([p] + b)) == multiset(a) + multiset([p] + b);
  }

  /** Moves the manifest to the end and keeps the order of the other files. */
  method ManifestToEnd(paths: seq<Path>) returns (ordered: seq<Path>)
    requires NoRepeats(paths)
    ensures ordered == WithoutManifest(paths) + if MANIFEST in paths then [MANIFEST] else []
    ensures multiset(ordered) == multiset(paths)
  {
    hide WithoutManifest;
    for i := 0 to |paths|
      invariant forall k :: 0 <= k < i ==> paths[k] != MANIFEST
    {
      if paths[i] == MANIFEST {
        assert paths == paths[..i] + ([MANIFEST] + paths[i + 1..]);
        ManifestBetween(paths[..i], paths[i + 1..]);
        Reordered(paths[..i], MANIFEST, paths[i + 1..]);
        return paths[..i] + paths[i + 1..] + [paths[i]];
      }
    }
    NoManifest(paths);
    ordered := paths;
  }

  // ---- which files there are ----

  /** As many different allowed files as there are allowed files: all of them. */
  lemma AllSliceFiles(paths: seq<Path>)
    requires NoRepeats(paths) && |paths| == |ARTIFACTS| + 1
    requires forall p :: p in paths ==> IsSlicePath(p)
    ensures forall p :: IsSlicePath(p) ==> p in paths
  {
    SizeOf(paths);
    SizeOf(ARTIFACTS + [MANIFEST]);
    hide ARTIFACTS;
    Included(SetOf(paths), SetOf(ARTIFACTS + [MANIFEST]));
    assert forall p :: IsSlicePath(p) ==> p in SetOf(ARTIFACTS + [MANIFEST]);
  }

  lemma HowManySliceFiles(paths: seq<Path>)
    requires NoRepeats(paths) && forall p :: p in paths <==> IsSlicePath(p)
    ensures |paths| == |ARTIFACTS| + 1 == 14
  {
    assert |ARTIFACTS| == 13;
    SizeOf(paths);
    ArtifactsNoRepeats();
    SizeOf(ARTIFACTS + [MANIFEST]);
    hide ARTIFACTS;
    assert SetOf(paths) == SetOf(ARTIFACTS + [MANIFEST]);
  }

  lemma ArtifactsNoRepeats()
    ensures NoRepeats(ARTIFACTS + [MANIFEST])
  {
    forall i, j | 0 <= i < j <= |ARTIFACTS|
      ensures (ARTIFACTS + [MANIFEST])[i] != (ARTIFACTS + [MANIFEST])[j]
    {
      assert j == |ARTIFACTS| || ARTIFACTS[i] != ARTIFACTS[j];
    }
  }

  lemma InWriteOrder(sorted: seq<Path>)
    requires NoRepeats(sorted)
    ensures NoRepeats(WithoutManifest(sorted) + [MANIFEST])
  {
    WithoutManifestNoRepeats(sorted);
    var slice := WithoutManifest(sorted);
    assert forall i :: 0 <= i < |slice| ==> slice[i] in slice;
  }
}
