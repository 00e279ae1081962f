/** What the 64-bit arithmetic of the consistency check lets through.
 */
module CoverageWidth {
  import opened Counts
  import opened Coverage
  import opened Statuses

  /** Every count is a 64-bit number, as in a report read back. */
  ghost predicate HasInt64Counts(r: Report) {
    && IsInt64(r.total) && AllInt64(r.bySource) && AllInt64(r.byNamespace) && AllInt64(r.byKind) && AllInt64(r.byArchitecture)
    && AllInt64(r.byBackend) && AllInt64(r.byStatus) && AllInt64(r.bySkipReason) && AllInt64(r.excludedBySource)
    && IsInt64(r.abiVerified) && IsInt64(r.abiUnverified) && IsInt64(r.abiMismatches) && IsInt64(r.runtimeTested)
    && IsInt64(r.manualOverrides) && IsInt64(r.bridgeCallable)
  }

  /** The counts that must add up to something do so within 64 bits. */
  ghost predicate SumsFit(r: Report) {
    && IsInt64(Sum(r.bySource)) && IsInt64(Sum(r.byNamespace)) && IsInt64(Sum(r.byKind)) && IsInt64(Sum(r.byBackend))
    && IsInt64(Sum(r.byStatus)) && IsInt64(Sum(r.bySkipReason))
  }

  lemma PartitionWidth<K(!new)>(counts: map<K, int>, total: int)
    requires IsInt64(total)
    ensures Partitions(counts, total, Unbounded) <==> Partitions(counts, total, Bits64) && IsInt64(Sum(counts))
  {
    hide Wrap64, HasNegative, Sum;
    WrapKeeps(Sum(counts));
    WrapKeeps(total);
  }

  lemma TakeOut<K(!new)>(m: map<K, int>, k: K)
    requires !HasNegative(m)
    ensures Sum(m) == At(m, k) + Sum(m - {k}) && At(m, k) >= 0 && !HasNegative(m - {k})
    ensures forall j :: j != k ==> At(m - {k}, j) == At(m, j)
  {
    if k in m {
      SumOne(m, k);
      NegativeOrRest(m, k);
    } else {
      assert m - {k} == m;
    }
  }

  /** The generated and the unclassified are among all. */
  lemma StatusesWithin(m: map<Status, int>)
    requires !HasNegative(m)
    ensures 0 <= GeneratedIn(m) && 0 <= At(m, Unclassified) && GeneratedIn(m) + At(m, Unclassified) <= Sum(m)
    ensures 0 <= At(m, GeneratedPureGo) <= GeneratedIn(m) && 0 <= At(m, GeneratedAssembly) <= GeneratedIn(m)
  {
    hide Sum, HasNegative, At;
    var m1 := m - {GeneratedPureGo};
    var m2 := m1 - {GeneratedAssembly};
    var m3 := m2 - {GeneratedCgoBridge};
    var m4 := m3 - {GeneratedTypeOnly};
    var m5 := m4 - {GeneratedManualOverride};
    TakeOut(m, GeneratedPureGo);
    TakeOut(m1, GeneratedAssembly);
    TakeOut(m2, GeneratedCgoBridge);
    TakeOut(m3, GeneratedTypeOnly);
    TakeOut(m4, GeneratedManualOverride);
    TakeOut(m5, Unclassified);
    SumIsNotNegative(m5 - {Unclassified});
  }

  /** The verified and the unverified cannot wrap to a positive total. */
  lemma RangesWidth(r: Report)
    requires HasInt64Counts(r) && r.total > 0
    ensures HasRanges(r, Bits64) <==> HasRanges(r, Unbounded)
  {
    WrapKeeps(r.abiVerified + r.abiUnverified);
    if r.abiVerified >= 0 && r.abiUnverified >= 0 && !IsInt64(r.abiVerified + r.abiUnverified) {
      WrapsBelow(r.abiVerified + r.abiUnverified);
    }
    hide Wrap64, AllInt64;
  }

  lemma WrapsBelow(n: int)
    requires 0x8000_0000_0000_0000 <= n < 0x1_0000_0000_0000_0000
    ensures Wrap64(n) < 0 <= n
  {
  }

  /** Nothing that is computed from the statuses wraps when they add up to the total. */
  lemma StatusesWidth(r: Report)
    requires IsInt64(r.total) && Partitions(r.byStatus, r.total, Unbounded)
    ensures Fit(Bits64, GeneratedIn(r.byStatus)) == GeneratedIn(r.byStatus)
    ensures Fit(Bits64, r.total - GeneratedIn(r.byStatus)) == r.total - GeneratedIn(r.byStatus)
    ensures Fit(Bits64, r.total - At(r.byStatus, Unclassified)) == r.total - At(r.byStatus, Unclassified)
  {
    StatusesWithin(r.byStatus);
    hide Wrap64, GeneratedIn, Sum, HasNegative, At;
    WrapKeeps(GeneratedIn(r.byStatus));
    WrapKeeps(r.total - GeneratedIn(r.byStatus));
    WrapKeeps(r.total - At(r.byStatus, Unclassified));
  }

  lemma MetricsWidth(r: Report)
    requires IsInt64(r.total) && Partitions(r.byStatus, r.total, Unbounded)
    ensures HasMetrics(r, Bits64) <==> HasMetrics(r, Unbounded)
  {
    StatusesWidth(r);
    hide Wrap64, GeneratedIn, Partitions, MetricOf, At;
  }

  /** The number of skipped symbols does not wrap either. */
  lemma SkippedWidth(r: Report)
    requires IsInt64(r.total) && Partitions(r.byStatus, r.total, Unbounded)
    ensures var skipped := r.total - GeneratedIn(r.byStatus);
      && Fit(Bits64, r.total - Fit(Bits64, GeneratedIn(r.byStatus))) == skipped
      && (Partitions(r.bySkipReason, skipped, Unbounded) <==> Partitions(r.bySkipReason, skipped, Bits64) && IsInt64(Sum(r.bySkipReason)))
  {
    StatusesWidth(r);
    StatusesWithin(r.byStatus);
    hide Wrap64, GeneratedIn, HasNegative, Sum;
    PartitionWidth(r.bySkipReason, r.total - GeneratedIn(r.byStatus));
  }

  /** A wrapped count of architectures never covers more than the exact one. */
  lemma ArchitecturesWidth(byArchitecture: map<string, int>, total: int)
    ensures !HasNegative(byArchitecture) && Wrap64(Sum(byArchitecture)) >= total ==> Sum(byArchitecture) >= total
  {
    if !HasNegative(byArchitecture) {
      SumIsNotNegative(byArchitecture);
    }
    hide Sum, HasNegative, Wrap64;
    WrapKeeps(Sum(byArchitecture));
  }

  lemma PartitionsWidth(r: Report)
    requires IsInt64(r.total)
    ensures HasPartitions(r, Unbounded) ==> SumsFit(r)
    ensures HasPartitions(r, Bits64) && SumsFit(r) ==> HasPartitions(r, Unbounded)
    ensures HasPartitions(r, Unbounded) ==> (HasPartitions(r, Bits64) <==> Wrap64(Sum(r.byArchitecture)) >= r.total)
  {
    hide Wrap64, GeneratedIn, HasNegative, Sum, IsInt64, Partitions, IsValidStatus;
    PartitionWidth(r.bySource, r.total);
    PartitionWidth(r.byNamespace, r.total);
    PartitionWidth(r.byKind, r.total);
    PartitionWidth(r.byBackend, r.total);
    PartitionWidth(r.byStatus, r.total);
    if Partitions(r.byStatus, r.total, Unbounded) {
      SkippedWidth(r);
    }
    ArchitecturesWidth(r.byArchitecture, r.total);
  }

  /** For a report the program accepts, being exactly consistent means that no sum
      left 64 bits; an exactly consistent report is refused only when its count of
      architectures wraps below the total. */
  lemma WrappedIsExactWhen(r: Report)
    requires HasInt64Counts(r)
    ensures IsConsistent(r, Bits64) ==> (IsConsistent(r, Unbounded) <==> SumsFit(r))
    ensures IsConsistent(r, Unbounded) ==> (IsConsistent(r, Bits64) <==> Wrap64(Sum(r.byArchitecture)) >= r.total)
  {
    PartitionsWidth(r);
    if r.total > 0 {
      RangesWidth(r);
    }
    PartitionWidth(r.byStatus, r.total);
    hide Wrap64, HasRanges, HasMetrics, Sum, HasNegative, GeneratedIn, IsInt64, AllInt64, IsHash, IsValidStatus;
    if Partitions(r.byStatus, r.total, Unbounded) {
      MetricsWidth(r);
    }
  }

  /** When no sum leaves 64 bits, the program accepts exactly the consistent reports. */
  lemma NoWrapNoDifference(r: Report)
    requires HasInt64Counts(r) && SumsFit(r) && IsInt64(Sum(r.byArchitecture))
    ensures IsConsistent(r, Bits64) <==> IsConsistent(r, Unbounded)
  {
    WrappedIsExactWhen(r);
    WrapKeeps(Sum(r.byArchitecture));
    hide HasPartitions, HasRanges, HasMetrics, HasIdentity, Wrap64, IsInt64, Sum, AllInt64;
    assert IsConsistent(r, Unbounded) ==> Sum(r.byArchitecture) >= r.total by {
      Covering(r);
    }
  }

  lemma Covering(r: Report)
    ensures IsConsistent(r, Unbounded) ==> Sum(r.byArchitecture) >= r.total
  {
  }

  lemma {:induction false} SkippedAtMost(symbols: seq<Symbol>)
    ensures |Skipped(symbols)| <= |symbols|
  {
    if symbols != [] {
      SkippedAtMost(symbols[..|symbols| - 1]);
    }
  }

  lemma BuiltSumsFit(inv: Inventory)
    requires HasInt64Counts(ReportOf(inv))
    ensures SumsFit(ReportOf(inv))
  {
    var symbols := Select(inv.symbols, HasOfficial(inv.symbols), true);
    CountsAddUp(symbols, SourceOf);
    CountsAddUp(symbols, NamespaceOf);
    CountsAddUp(symbols, KindOf);
    CountsAddUp(symbols, BackendOf);
    CountsAddUp(symbols, StatusOf);
    CountsAddUp(Skipped(symbols), ReasonOf);
    SkippedAtMost(symbols);
    hide Sum, CountBy, HowMany, Skipped, Select, HasOfficial, AllInt64, MetricsOf, CountArchitectures;
  }

  /** The program accepts a report it built exactly when the inventory names its
      generator and its manifest, has symbols, and leaves no counted symbol with an
      unknown status. */
  lemma BuiltReportsPass(inv: Inventory)
    requires HasInt64Counts(ReportOf(inv)) && IsInt64(Sum(ReportOf(inv).byArchitecture))
    ensures IsConsistent(ReportOf(inv), Bits64) <==>
      && inv.generatorVersion != "" && IsHash(inv.manifestHash) && inv.symbols != []
      && AllKnown(Select(inv.symbols, HasOfficial(inv.symbols), true))
  {
    BuiltSumsFit(inv);
    BuiltReportsAreConsistent(inv);
    hide IsConsistent, ReportOf, SumsFit, HasInt64Counts, IsInt64, Sum, AllKnown, IsHash, Select, HasOfficial;
    NoWrapNoDifference(ReportOf(inv));
  }
}
