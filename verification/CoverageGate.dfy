/** When one coverage report may follow another.
 */
module CoverageGate {
  import opened Options
  import opened Counts
  import opened Coverage
  import opened Statuses
  import opened CoverageWidth

  predicate RatioLess(current: Metric, baseline: Metric) {
    Wrap64(current.numerator * baseline.denominator) < Wrap64(baseline.numerator * current.denominator)
  }

  /** The comparison is that of the ratios whenever both products are 64-bit numbers. */
  lemma RatioLessIsExact(current: Metric, baseline: Metric)
    requires current.denominator > 0 && baseline.denominator > 0
    requires IsInt64(current.numerator * baseline.denominator) && IsInt64(baseline.numerator * current.denominator)
    ensures RatioLess(current, baseline) <==>
      current.numerator as real / current.denominator as real < baseline.numerator as real / baseline.denominator as real
  {
    hide Wrap64, IsInt64;
    WrapKeeps(current.numerator * baseline.denominator);
    WrapKeeps(baseline.numerator * current.denominator);
    RatiosCrossMultiplied(current.numerator, current.denominator, baseline.numerator, baseline.denominator);
  }

  lemma RatiosCrossMultiplied(an: int, ad: int, bn: int, bd: int)
    requires ad > 0 && bd > 0
    ensures an * bd < bn * ad <==> an as real / ad as real < bn as real / bd as real
  {
    var x, y := an as real / ad as real, bn as real / bd as real;
    var d := ad as real * bd as real;
    assert d > 0.0;
    assert x * d == an as real * bd as real == (an * bd) as real by {
      assert x * ad as real == an as real;
      assert x * d == (x * ad as real) * bd as real;
    }
    assert y * d == bn as real * ad as real == (bn * ad) as real by {
      assert y * bd as real == bn as real;
      assert y * d == (y * bd as real) * ad as real;
    }
    OrderTimes(x, y, d);
  }

  lemma OrderTimes(x: real, y: real, d: real)
    requires d > 0.0
    ensures x < y <==> x * d < y * d
  {
    assert (y - x) * d == y * d - x * d;
    assert x < y ==> (y - x) * d > 0.0;
    assert x > y ==> (x - y) * d > 0.0;
    assert (x - y) * d == x * d - y * d;
  }

  predicate NoRegression(r: Report, baseline: Report) {
    && r.scope == baseline.scope && r.total >= baseline.total && r.abiMismatches <= baseline.abiMismatches
    && !RatioLess(r.metrics.accounting, baseline.metrics.accounting)
    && !RatioLess(r.metrics.abiVerified, baseline.metrics.abiVerified)
    && !RatioLess(r.metrics.generation, baseline.metrics.generation)
    && !RatioLess(r.metrics.pureGo, baseline.metrics.pureGo)
    && !RatioLess(r.metrics.assembly, baseline.metrics.assembly)
    && !RatioLess(r.metrics.bridge, baseline.metrics.bridge)
    && !RatioLess(r.metrics.runtimeTested, baseline.metrics.runtimeTested)
  }

  ghost predicate Accepts(r: Report, baseline: Option<Report>, failUnclassified: bool, failRegression: bool) {
    && IsConsistent(r, Bits64) && (baseline.Some? ==> IsConsistent(baseline.value, Bits64))
    && (failUnclassified ==> At(r.byStatus, Unclassified) == 0)
    && r.abiMismatches == 0
    && r.metrics.accounting.numerator == r.metrics.accounting.denominator
    && (failRegression ==> baseline.Some? && NoRegression(r, baseline.value))
  }

  method Check(r: Report, baseline: Option<Report>, failUnclassified: bool, failRegression: bool) returns (accepted: bool)
    ensures accepted <==> Accepts(r, baseline, failUnclassified, failRegression)
  {
    hide IsConsistent, NoRegression;
    var ok := Validate(r);
    if !ok {
      return false;
    }
    if baseline.Some? {
      ok := Validate(baseline.value);
      if !ok {
        return false;
      }
    }
    accepted := !(failUnclassified && At(r.byStatus, Unclassified) != 0) && r.abiMismatches == 0
      && r.metrics.accounting.numerator == r.metrics.accounting.denominator;
    if failRegression {
      accepted := accepted && baseline.Some? && NoRegression(r, baseline.value);
    }
  }

  // ---- the ratchet ----

  /** The largest count whose square is a 64-bit signed number. */
  const COUNT_LIMIT: int := 3037000499

  /** No count by status is beyond the limit, nor is the total. */
  ghost predicate HasSmallCounts(r: Report, limit: int) {
    HasInt64Counts(r) && r.total <= limit && forall s :: s in r.byStatus ==> r.byStatus[s] <= limit
  }

  /** A report accepted against one that was itself accepted against an earlier one is
      accepted against the earlier one, as long as no count is beyond the limit. */
  ghost predicate IsRatchet(limit: int) {
    forall a, b, c, failUnclassified: bool ::
      && HasSmallCounts(a, limit) && HasSmallCounts(b, limit) && HasSmallCounts(c, limit)
      && Accepts(b, Some(a), failUnclassified, true) && Accepts(c, Some(b), failUnclassified, true) ==>
        Accepts(c, Some(a), failUnclassified, true)
  }

  const KNOWN_STATUSES: seq<Status> := [
    Unclassified, GeneratedPureGo, GeneratedAssembly, GeneratedCgoBridge, GeneratedTypeOnly, GeneratedManualOverride,
    UnsupportedGoAbi, UnsupportedProjection, KernelModeOnly, MissingUpstreamMetadata, ExternalSdkNotInstalled,
    UndocumentedOutOfScope, LicenseRestricted, SourceParseError
  ]

  lemma {:induction false} SumAtMost<K(!new)>(m: map<K, int>, limit: nat)
    requires forall k :: k in m ==> m[k] <= limit
    ensures Sum(m) <= |m| * limit
    decreases |m|
  {
    if m != map[] {
      var k :| k in m;
      SumOne(m, k);
      SumAtMost(m - {k}, limit);
      assert |m - {k}| == |m| - 1;
      assert (|m| - 1) * limit + limit == |m| * limit;
    }
  }

  lemma {:induction false} KeysAtMost<K>(keys: set<K>, all: seq<K>)
    requires forall k :: k in keys ==> k in all
    ensures |keys| <= |all|
  {
    if all != [] {
      var n := |all| - 1;
      assert forall k :: k in keys && k != all[n] ==> k in all[..n];
      KeysAtMost(keys - {all[n]}, all[..n]);
    } else {
      assert keys == {};
    }
  }

  lemma KnownStatuses(s: Status)
    requires s.Unclassified? || IsValidStatus(s)
    ensures s in KNOWN_STATUSES
  {
    var all := KNOWN_STATUSES;
    assert all[0] == Unclassified && all[1] == GeneratedPureGo && all[2] == GeneratedAssembly && all[3] == GeneratedCgoBridge;
    assert all[4] == GeneratedTypeOnly && all[5] == GeneratedManualOverride && all[6] == UnsupportedGoAbi;
    assert all[7] == UnsupportedProjection && all[8] == KernelModeOnly && all[9] == MissingUpstreamMetadata;
    assert all[10] == ExternalSdkNotInstalled && all[11] == UndocumentedOutOfScope && all[12] == LicenseRestricted;
    assert all[13] == SourceParseError;
  }

  /** Fourteen small counts add up within 64 bits. */
  lemma StatusSumFits(byStatus: map<Status, int>)
    requires !HasNegative(byStatus) && forall s :: s in byStatus ==> (s.Unclassified? || IsValidStatus(s)) && byStatus[s] <= COUNT_LIMIT
    ensures IsInt64(Sum(byStatus))
  {
    SumIsNotNegative(byStatus);
    SumAtMost(byStatus, COUNT_LIMIT);
    forall s | s in byStatus.Keys
      ensures s in KNOWN_STATUSES
    {
      KnownStatuses(s);
    }
    assert |KNOWN_STATUSES| == 14;
    hide KNOWN_STATUSES, Sum, HasNegative;
    KeysAtMost(byStatus.Keys, KNOWN_STATUSES);
    assert |byStatus| == |byStatus.Keys|;
  }

  predicate IsRatio(m: Metric, total: int) {
    m.denominator == total && 0 <= m.numerator <= total
  }

  /** In an accepted report whose counts by status add up within 64 bits, every metric
      is a part of the total. */
  lemma MetricsAreRatios(r: Report)
    requires IsConsistent(r, Bits64) && HasInt64Counts(r) && IsInt64(Sum(r.byStatus))
    ensures IsRatio(r.metrics.accounting, r.total) && IsRatio(r.metrics.abiVerified, r.total) && IsRatio(r.metrics.generation, r.total)
    ensures IsRatio(r.metrics.pureGo, r.total) && IsRatio(r.metrics.assembly, r.total) && IsRatio(r.metrics.bridge, r.total)
    ensures IsRatio(r.metrics.runtimeTested, r.total)
  {
    PartitionWidth(r.byStatus, r.total);
    StatusesWithin(r.byStatus);
    RangesWidth(r);
    MetricsWidth(r);
    hide Sum, HasNegative, IsHash, Wrap64, GeneratedIn, IsInt64, AllInt64;
  }

  /** Cross-multiplied ratios are in order like the ratios themselves. */
  lemma RatiosAreTransitive(an: int, ad: int, bn: int, bd: int, cn: int, cd: int)
    requires ad > 0 && bd > 0 && cd > 0
    requires cn * bd >= bn * cd && bn * ad >= an * bd
    ensures cn * ad >= an * cd
  {
    assert (cn * bd) * ad >= (bn * cd) * ad && (bn * ad) * cd >= (an * bd) * cd;
    assert bd * (cn * ad) == (cn * bd) * ad && (bn * cd) * ad == (bn * ad) * cd && (an * bd) * cd == bd * (an * cd);
    assert bd * (cn * ad - an * cd) >= 0;
  }

  lemma ProductFits(x: int, y: int)
    requires 0 <= x <= COUNT_LIMIT && 0 <= y <= COUNT_LIMIT
    ensures Wrap64(x * y) == x * y
  {
    ProductIsMonotone(x, y, COUNT_LIMIT);
    hide Wrap64;
    WrapKeeps(x * y);
  }

  lemma ProductIsMonotone(x: int, y: int, limit: int)
    requires 0 <= x <= limit && y >= 0
    ensures 0 <= x * y <= limit * y
  {
    assert (limit - x) * y >= 0;
  }

  lemma NotLessIsTransitive(a: Metric, b: Metric, c: Metric, x: int, y: int, z: int)
    requires IsRatio(a, x) && IsRatio(b, y) && IsRatio(c, z)
    requires 0 < x <= COUNT_LIMIT && 0 < y <= COUNT_LIMIT && 0 < z <= COUNT_LIMIT
    requires !RatioLess(c, b) && !RatioLess(b, a)
    ensures !RatioLess(c, a)
  {
    hide Wrap64;
    ProductFits(c.numerator, y);
    ProductFits(b.numerator, z);
    ProductFits(b.numerator, x);
    ProductFits(a.numerator, y);
    ProductFits(c.numerator, x);
    ProductFits(a.numerator, z);
    RatiosAreTransitive(a.numerator, x, b.numerator, y, c.numerator, z);
  }

  /** The accepted reports of a run of the gate have metrics the ratchet can hold. */
  ghost predicate HasRatios(r: Report) {
    && 0 < r.total <= COUNT_LIMIT
    && IsRatio(r.metrics.accounting, r.total) && IsRatio(r.metrics.abiVerified, r.total) && IsRatio(r.metrics.generation, r.total)
    && IsRatio(r.metrics.pureGo, r.total) && IsRatio(r.metrics.assembly, r.total) && IsRatio(r.metrics.bridge, r.total)
    && IsRatio(r.metrics.runtimeTested, r.total)
  }

  lemma SmallCountsHaveRatios(r: Report)
    requires IsConsistent(r, Bits64) && HasSmallCounts(r, COUNT_LIMIT)
    ensures HasRatios(r)
  {
    hide Sum, HasNegative, IsHash, Wrap64, IsInt64, AllInt64, HasRanges, HasMetrics, IsValidStatus;
    StatusSumFits(r.byStatus);
    MetricsAreRatios(r);
  }

  lemma NoRegressionIsTransitive(a: Report, b: Report, c: Report)
    requires HasRatios(a) && HasRatios(b) && HasRatios(c) && NoRegression(b, a) && NoRegression(c, b)
    ensures NoRegression(c, a)
  {
    hide RatioLess, IsRatio;
    NotLessIsTransitive(a.metrics.accounting, b.metrics.accounting, c.metrics.accounting, a.total, b.total, c.total);
    NotLessIsTransitive(a.metrics.abiVerified, b.metrics.abiVerified, c.metrics.abiVerified, a.total, b.total, c.total);
    NotLessIsTransitive(a.metrics.generation, b.metrics.generation, c.metrics.generation, a.total, b.total, c.total);
    NotLessIsTransitive(a.metrics.pureGo, b.metrics.pureGo, c.metrics.pureGo, a.total, b.total, c.total);
    NotLessIsTransitive(a.metrics.assembly, b.metrics.assembly, c.metrics.assembly, a.total, b.total, c.total);
    NotLessIsTransitive(a.metrics.bridge, b.metrics.bridge, c.metrics.bridge, a.total, b.total, c.total);
    NotLessIsTransitive(a.metrics.runtimeTested, b.metrics.runtimeTested, c.metrics.runtimeTested, a.total, b.total, c.total);
  }

  lemma RatchetHolds(a: Report, b: Report, c: Report, failUnclassified: bool)
    requires HasSmallCounts(a, COUNT_LIMIT) && HasSmallCounts(b, COUNT_LIMIT) && HasSmallCounts(c, COUNT_LIMIT)
    requires Accepts(b, Some(a), failUnclassified, true) && Accepts(c, Some(b), failUnclassified, true)
    ensures Accepts(c, Some(a), failUnclassified, true)
  {
    hide IsConsistent, HasSmallCounts, HasRatios, NoRegression;
    SmallCountsHaveRatios(a);
    SmallCountsHaveRatios(b);
    SmallCountsHaveRatios(c);
    NoRegressionIsTransitive(a, b, c);
  }

  // ---- what the comparison with the baseline demands ----

  /** The metric is no smaller a share than the baseline's. */
  predicate IsNoLess(m: Metric, baseline: Metric) {
    && m.denominator > 0 && baseline.denominator > 0
    && m.numerator as real / m.denominator as real >= baseline.numerator as real / baseline.denominator as real
  }

  lemma NoLessIsNotLess(m: Metric, baseline: Metric, x: int, y: int)
    requires IsRatio(m, x) && IsRatio(baseline, y) && 0 < x <= COUNT_LIMIT && 0 < y <= COUNT_LIMIT
    ensures IsNoLess(m, baseline) <==> !RatioLess(m, baseline)
  {
    hide Wrap64;
    ProductFits(m.numerator, y);
    ProductFits(baseline.numerator, x);
    RatiosCrossMultiplied(m.numerator, x, baseline.numerator, y);
  }

  /** With counts up to the limit, a report accepted by itself is accepted against a
      baseline exactly when scope and total have not shrunk, there are no more mismatches,
      and none of the seven metrics is a smaller share. */
  lemma AcceptedAgainstExactly(r: Report, baseline: Report, failUnclassified: bool)
    requires HasSmallCounts(r, COUNT_LIMIT) && HasSmallCounts(baseline, COUNT_LIMIT)
    ensures Accepts(r, Some(baseline), failUnclassified, true) <==>
      && Accepts(r, Some(baseline), failUnclassified, false)
      && r.scope == baseline.scope && r.total >= baseline.total && r.abiMismatches <= baseline.abiMismatches
      && IsNoLess(r.metrics.accounting, baseline.metrics.accounting) && IsNoLess(r.metrics.abiVerified, baseline.metrics.abiVerified)
      && IsNoLess(r.metrics.generation, baseline.metrics.generation) && IsNoLess(r.metrics.pureGo, baseline.metrics.pureGo)
      && IsNoLess(r.metrics.assembly, baseline.metrics.assembly) && IsNoLess(r.metrics.bridge, baseline.metrics.bridge)
      && IsNoLess(r.metrics.runtimeTested, baseline.metrics.runtimeTested)
  {
    hide IsConsistent, HasSmallCounts, IsNoLess, RatioLess, IsRatio;
    if Accepts(r, Some(baseline), failUnclassified, false) {
      SmallCountsHaveRatios(r);
      SmallCountsHaveRatios(baseline);
      NoLessIsNotLess(r.metrics.accounting, baseline.metrics.accounting, r.total, baseline.total);
      NoLessIsNotLess(r.metrics.abiVerified, baseline.metrics.abiVerified, r.total, baseline.total);
      NoLessIsNotLess(r.metrics.generation, baseline.metrics.generation, r.total, baseline.total);
      NoLessIsNotLess(r.metrics.pureGo, baseline.metrics.pureGo, r.total, baseline.total);
      NoLessIsNotLess(r.metrics.assembly, baseline.metrics.assembly, r.total, baseline.total);
      NoLessIsNotLess(r.metrics.bridge, baseline.metrics.bridge, r.total, baseline.total);
      NoLessIsNotLess(r.metrics.runtimeTested, baseline.metrics.runtimeTested, r.total, baseline.total);
    }
  }

  // ---- larger counts ----

  /** A report with one source, namespace, kind, backend and architecture, in which
      everything is generated and nothing verified. */
  function ReportWith(total: int, byStatus: map<Status, int>): Report {
    var all := map["x" := total];
    var none, every := MetricOf(0, total), MetricOf(total, total);
    Report(1, OfficialSources, "v", seq(64, i => '0'), total, all, all, all, all, all, byStatus, map[], map[], 0, total, 0, 0, 0, 0,
           Metrics(every, every, every, MetricOf(At(byStatus, GeneratedPureGo), total), MetricOf(At(byStatus, GeneratedAssembly), total),
                   none, none, none))
  }

  lemma SumOfOne<K(!new)>(k: K, n: int)
    ensures Sum(map[k := n]) == n && (n >= 0 ==> !HasNegative(map[k := n]))
  {
    SumOne(map[k := n], k);
    assert map[k := n] - {k} == map[];
  }

  lemma ReportWithIsConsistent(total: int, byStatus: map<Status, int>)
    requires 0 < total && IsInt64(total) && Partitions(byStatus, total, Bits64) && Wrap64(GeneratedIn(byStatus)) == total
    requires forall s :: s in byStatus ==> IsGenerated(s)
    ensures IsConsistent(ReportWith(total, byStatus), Bits64)
  {
    SumOfOne("x", total);
    WrapKeeps(total);
    WrapOfZero();
    var empty: map<string, int> := map[];
    NoCounts(empty);
  }

  lemma SumOfThree(j: Status, x: int, k: Status, y: int, l: Status, z: int)
    requires j != k && k != l && j != l && x >= 0 && y >= 0 && z >= 0
    ensures Sum(map[j := x, k := y, l := z]) == x + y + z && !HasNegative(map[j := x, k := y, l := z])
  {
    var m := map[j := x, k := y, l := z];
    SumOne(m, j);
    SumOne(m - {j}, k);
    SumOfOne(l, z);
    assert m - {j} - {k} == map[l := z];
  }

  const MAX_INT64: int := 0x7fff_ffff_ffff_ffff

  /** Everything is generated in pure Go. */
  function PureGoReport(total: int): Report {
    ReportWith(total, map[GeneratedPureGo := total])
  }

  /** Only types are generated. */
  function TypesReport(total: int): Report {
    ReportWith(total, map[GeneratedTypeOnly := total])
  }

  /** One symbol, and counts by status that add up to 1 in 64 bits. */
  function WrappedReport(): Report {
    ReportWith(1, WrappedCounts())
  }

  lemma PlainReportsAreConsistent(total: int)
    requires 0 < total && IsInt64(total)
    ensures IsConsistent(PureGoReport(total), Bits64) && IsConsistent(TypesReport(total), Bits64)
    ensures HasInt64Counts(PureGoReport(total)) && HasInt64Counts(TypesReport(total))
  {
    SumOfOne(GeneratedPureGo, total);
    SumOfOne(GeneratedTypeOnly, total);
    WrapKeeps(total);
    hide IsConsistent, ReportWith, Sum, HasNegative, Wrap64;
    ReportWithIsConsistent(total, map[GeneratedPureGo := total]);
    ReportWithIsConsistent(total, map[GeneratedTypeOnly := total]);
    ReportWithIsInt64(total, map[GeneratedPureGo := total]);
    ReportWithIsInt64(total, map[GeneratedTypeOnly := total]);
  }

  lemma ReportWithIsInt64(total: int, byStatus: map<Status, int>)
    requires IsInt64(total) && AllInt64(byStatus)
    ensures HasInt64Counts(ReportWith(total, byStatus))
  {
  }

  /** The counts by status of that report. */
  function WrappedCounts(): map<Status, int> {
    map[GeneratedPureGo := MAX_INT64, GeneratedAssembly := MAX_INT64, GeneratedCgoBridge := 3]
  }

  lemma WrappedCountsAddUp()
    ensures Sum(WrappedCounts()) == MAX_INT64 + MAX_INT64 + 3 && !HasNegative(WrappedCounts())
    ensures Partitions(WrappedCounts(), 1, Bits64)
  {
    SumOfThree(GeneratedPureGo, MAX_INT64, GeneratedAssembly, MAX_INT64, GeneratedCgoBridge, 3);
    hide Sum, HasNegative;
  }

  lemma WrappedCountsAreGenerated()
    ensures Wrap64(GeneratedIn(WrappedCounts())) == 1
    ensures AllInt64(WrappedCounts()) && forall s :: s in WrappedCounts() ==> IsGenerated(s)
  {
    assert GeneratedIn(WrappedCounts()) == MAX_INT64 + MAX_INT64 + 3;
  }

  lemma WrappedReportIsConsistent()
    ensures IsConsistent(WrappedReport(), Bits64) && HasInt64Counts(WrappedReport())
  {
    hide IsConsistent, ReportWith, Sum, HasNegative, Wrap64, GeneratedIn, AllInt64, HasInt64Counts, Partitions, WrappedCounts, IsGenerated;
    WrappedCountsAddUp();
    WrappedCountsAreGenerated();
    ReportWithIsConsistent(1, WrappedCounts());
    ReportWithIsInt64(1, WrappedCounts());
  }

  /** The program accepts a report that is not consistent. */
  lemma WrappedReportIsNotExact()
    ensures IsConsistent(WrappedReport(), Bits64) && !IsConsistent(WrappedReport(), Unbounded)
  {
    WrappedReportIsConsistent();
    WrappedStatuses();
    hide ReportWith, Sum, HasNegative, HasInt64Counts, MetricOf, HasRanges, HasMetrics;
    WrappedIsExactWhen(WrappedReport());
  }

  lemma WrappedStatuses()
    ensures !IsInt64(Sum(WrappedReport().byStatus))
  {
    WrappedCountsAddUp();
    hide Sum, HasNegative, MetricOf, WrappedCounts;
  }

  /** n of d against m of e, cross-multiplied in 64 bits. */
  predicate Less64(n: int, d: int, m: int, e: int) {
    Wrap64(n * e) < Wrap64(m * d)
  }

  lemma LessAsRatios(n: int, d: int, m: int, e: int)
    ensures RatioLess(MetricOf(n, d), MetricOf(m, e)) <==> Less64(n, d, m, e)
  {
    hide Round, Wrap64;
  }

  /** What decides between two such reports. */
  lemma NoRegressionWith(total: int, byStatus: map<Status, int>, before: int, statusesBefore: map<Status, int>)
    ensures NoRegression(ReportWith(total, byStatus), ReportWith(before, statusesBefore)) <==>
      && total >= before && !Less64(total, total, before, before) && !Less64(0, total, 0, before)
      && !Less64(At(byStatus, GeneratedPureGo), total, At(statusesBefore, GeneratedPureGo), before)
      && !Less64(At(byStatus, GeneratedAssembly), total, At(statusesBefore, GeneratedAssembly), before)
  {
    LessAsRatios(total, total, before, before);
    LessAsRatios(0, total, 0, before);
    LessAsRatios(At(byStatus, GeneratedPureGo), total, At(statusesBefore, GeneratedPureGo), before);
    LessAsRatios(At(byStatus, GeneratedAssembly), total, At(statusesBefore, GeneratedAssembly), before);
    hide RatioLess, Less64, MetricOf, At;
  }

  lemma AcceptsWith(total: int, byStatus: map<Status, int>, baseline: Report)
    requires Unclassified !in byStatus
    requires IsConsistent(ReportWith(total, byStatus), Bits64) && IsConsistent(baseline, Bits64)
    ensures Accepts(ReportWith(total, byStatus), Some(baseline), true, true) <==> NoRegression(ReportWith(total, byStatus), baseline)
  {
    hide IsConsistent, NoRegression, Round;
  }

  lemma CountsOf(n: int)
    ensures var m := map[GeneratedPureGo := n]; At(m, GeneratedPureGo) == n && At(m, GeneratedAssembly) == 0
    ensures var m := map[GeneratedTypeOnly := n]; At(m, GeneratedPureGo) == 0 && At(m, GeneratedAssembly) == 0 && Unclassified !in m
    ensures var m := map[GeneratedPureGo := n, GeneratedAssembly := n, GeneratedCgoBridge := 3];
      At(m, GeneratedPureGo) == n && At(m, GeneratedAssembly) == n && Unclassified !in m
  {
  }

  lemma FirstStep()
    ensures Accepts(WrappedReport(), Some(PureGoReport(1)), true, true)
  {
    var statuses, before := WrappedCounts(), map[GeneratedPureGo := 1];
    assert !Less64(1, 1, 1, 1) && !Less64(0, 1, 0, 1) && !Less64(MAX_INT64, 1, 1, 1) && !Less64(MAX_INT64, 1, 0, 1);
    CountsOf(1);
    CountsOf(MAX_INT64);
    hide IsConsistent, HasInt64Counts, Accepts, NoRegression, Less64, ReportWith, At;
    PlainReportsAreConsistent(1);
    WrappedReportIsConsistent();
    AcceptsWith(1, statuses, PureGoReport(1));
    NoRegressionWith(1, statuses, 1, before);
  }

  lemma SecondStep()
    ensures Accepts(TypesReport(2), Some(WrappedReport()), true, true)
  {
    var statuses, before := map[GeneratedTypeOnly := 2], WrappedCounts();
    assert !Less64(2, 2, 1, 1) && !Less64(0, 2, 0, 1) && !Less64(0, 2, MAX_INT64, 1);
    CountsOf(2);
    CountsOf(MAX_INT64);
    hide IsConsistent, HasInt64Counts, Accepts, NoRegression, Less64, ReportWith, At;
    PlainReportsAreConsistent(2);
    WrappedReportIsConsistent();
    AcceptsWith(2, statuses, WrappedReport());
    NoRegressionWith(2, statuses, 1, before);
  }

  lemma NoneOfTwoIsLess()
    ensures Less64(0, 2, 1, 1)
  {
  }

  lemma BothSteps()
    ensures !Accepts(TypesReport(2), Some(PureGoReport(1)), true, true)
  {
    var statuses, before := map[GeneratedTypeOnly := 2], map[GeneratedPureGo := 1];
    NoneOfTwoIsLess();
    CountsOf(1);
    CountsOf(2);
    hide IsConsistent, HasInt64Counts, Accepts, NoRegression, Less64, ReportWith, At;
    PlainReportsAreConsistent(2);
    PlainReportsAreConsistent(1);
    AcceptsWith(2, statuses, PureGoReport(1));
    NoRegressionWith(2, statuses, 1, before);
  }

  /** With counts by status beyond the limit the ratchet fails, whatever the totals: the
      pure-Go ratios here are all of one, 2^63 - 1 of one, and none of two. */
  lemma LargeCountsBreakTheRatchet()
    ensures var a, b, c := PureGoReport(1), WrappedReport(), TypesReport(2);
      && HasInt64Counts(a) && HasInt64Counts(b) && HasInt64Counts(c) && a.total <= 2 && b.total <= 2 && c.total <= 2
      && Accepts(b, Some(a), true, true) && Accepts(c, Some(b), true, true) && !Accepts(c, Some(a), true, true)
  {
    SmallTotals();
    hide IsConsistent, HasInt64Counts, Accepts, MetricOf, ReportWith;
    PlainReportsAreConsistent(1);
    PlainReportsAreConsistent(2);
    WrappedReportIsConsistent();
    FirstStep();
    SecondStep();
    BothSteps();
  }

  lemma SmallTotals()
    ensures PureGoReport(1).total == WrappedReport().total == 1 && TypesReport(2).total == 2
  {
    hide MetricOf, At;
  }

  /** One beyond the limit: its square wraps to a negative number. */
  const PAST_LIMIT: int := COUNT_LIMIT + 1

  lemma SquareWraps()
    ensures !Less64(PAST_LIMIT, PAST_LIMIT, PAST_LIMIT, PAST_LIMIT) && !Less64(0, PAST_LIMIT, 0, PAST_LIMIT) && !Less64(0, PAST_LIMIT, PAST_LIMIT, PAST_LIMIT)
    ensures !Less64(PAST_LIMIT, PAST_LIMIT, 1, 1) && !Less64(0, PAST_LIMIT, 0, 1) && Less64(0, PAST_LIMIT, 1, 1)
  {
  }

  lemma PlainReportsAreSmall(total: int, limit: int)
    requires 0 < total <= limit && IsInt64(total)
    ensures HasSmallCounts(PureGoReport(total), limit) && HasSmallCounts(TypesReport(total), limit)
  {
    hide Wrap64, MetricOf;
  }

  /** With totals beyond the limit a fall from everything to nothing goes unnoticed. */
  lemma LargeTotalsHideAFall()
    ensures Accepts(TypesReport(PAST_LIMIT), Some(PureGoReport(PAST_LIMIT)), true, true)
    ensures var a, c := PureGoReport(PAST_LIMIT), TypesReport(PAST_LIMIT);
      At(a.byStatus, GeneratedPureGo) == a.total && At(c.byStatus, GeneratedPureGo) == 0
  {
    SquareWraps();
    CountsOf(PAST_LIMIT);
    hide IsConsistent, HasInt64Counts, Accepts, NoRegression, Less64, ReportWith, At;
    PlainReportsAreConsistent(PAST_LIMIT);
    FallParts(PAST_LIMIT);
    AcceptsWith(PAST_LIMIT, map[GeneratedTypeOnly := PAST_LIMIT], PureGoReport(PAST_LIMIT));
    NoRegressionWith(PAST_LIMIT, map[GeneratedTypeOnly := PAST_LIMIT], PAST_LIMIT, map[GeneratedPureGo := PAST_LIMIT]);
  }

  lemma FallParts(n: int)
    ensures At(PureGoReport(n).byStatus, GeneratedPureGo) == PureGoReport(n).total == n
    ensures At(TypesReport(n).byStatus, GeneratedPureGo) == 0
  {
    hide MetricOf;
  }

  /** From one symbol to one beyond the limit, all in pure Go. */
  lemma RiseIsAccepted()
    ensures Accepts(PureGoReport(PAST_LIMIT), Some(PureGoReport(1)), true, true)
  {
    SquareWraps();
    CountsOf(PAST_LIMIT);
    CountsOf(1);
    hide IsConsistent, HasInt64Counts, Accepts, NoRegression, Less64, ReportWith, At;
    PlainReportsAreConsistent(PAST_LIMIT);
    PlainReportsAreConsistent(1);
    AcceptsWith(PAST_LIMIT, map[GeneratedPureGo := PAST_LIMIT], PureGoReport(1));
    NoRegressionWith(PAST_LIMIT, map[GeneratedPureGo := PAST_LIMIT], 1, map[GeneratedPureGo := 1]);
  }

  lemma FallIsRefused()
    ensures !Accepts(TypesReport(PAST_LIMIT), Some(PureGoReport(1)), true, true)
  {
    SquareWraps();
    CountsOf(PAST_LIMIT);
    CountsOf(1);
    hide IsConsistent, HasInt64Counts, Accepts, NoRegression, Less64, ReportWith, At;
    PlainReportsAreConsistent(PAST_LIMIT);
    PlainReportsAreConsistent(1);
    AcceptsWith(PAST_LIMIT, map[GeneratedTypeOnly := PAST_LIMIT], PureGoReport(1));
    NoRegressionWith(PAST_LIMIT, map[GeneratedTypeOnly := PAST_LIMIT], 1, map[GeneratedPureGo := 1]);
  }

  lemma BeyondTheLimit(limit: int)
    requires limit > COUNT_LIMIT
    ensures !IsRatchet(limit)
  {
    hide Accepts, HasSmallCounts, PureGoReport, TypesReport;
    PlainReportsAreSmall(1, limit);
    PlainReportsAreSmall(PAST_LIMIT, limit);
    RiseIsAccepted();
    LargeTotalsHideAFall();
    FallIsRefused();
  }

  lemma SmallerIsSmall(r: Report, limit: int)
    requires limit <= COUNT_LIMIT && HasSmallCounts(r, limit)
    ensures HasSmallCounts(r, COUNT_LIMIT)
  {
    hide HasInt64Counts;
  }

  /** The gate is a ratchet under exactly the limits whose squares, and those of all
      smaller numbers, are 64-bit numbers. */
  lemma GateIsARatchet(limit: int)
    ensures IsRatchet(limit) <==> limit <= COUNT_LIMIT
  {
    if limit > COUNT_LIMIT {
      BeyondTheLimit(limit);
    } else {
      hide Accepts, HasSmallCounts;
      forall a, b, c, failUnclassified: bool |
        && HasSmallCounts(a, limit) && HasSmallCounts(b, limit) && HasSmallCounts(c, limit)
        && Accepts(b, Some(a), failUnclassified, true) && Accepts(c, Some(b), failUnclassified, true)
        ensures Accepts(c, Some(a), failUnclassified, true)
      {
        SmallerIsSmall(a, limit);
        SmallerIsSmall(b, limit);
        SmallerIsSmall(c, limit);
        RatchetHolds(a, b, c, failUnclassified);
      }
    }
  }
}
