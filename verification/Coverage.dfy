/** Coverage reports: how they are built from the inventory and when they are
    consistent.
 */
module Coverage {
  import opened Counts
  import opened Statuses

  datatype Symbol = Symbol(
    sourceId: string, isFixture: bool, namespace: string, kind: string, architecture: string, architectures: seq<string>,
    backend: string, status: Status, statusReason: string, abiVerified: bool, runtimeTested: bool, manualOverride: bool)

  datatype Inventory = Inventory(generatorVersion: string, manifestHash: string, symbols: seq<Symbol>)

  datatype Metric = Metric(numerator: int, denominator: int, percent: real)

  datatype Metrics = Metrics(
    ingestion: Metric, accounting: Metric, generation: Metric, pureGo: Metric, assembly: Metric, bridge: Metric,
    abiVerified: Metric, runtimeTested: Metric)

  datatype Scope = OfficialSources | Fixture | OtherScope

  datatype Report = Report(
    schemaVersion: int, scope: Scope, generatorVersion: string, manifestHash: string, total: int,
    bySource: map<string, int>, byNamespace: map<string, int>, byKind: map<string, int>, byArchitecture: map<string, int>,
    byBackend: map<string, int>, byStatus: map<Status, int>, bySkipReason: map<string, int>, excludedBySource: map<string, int>,
    abiVerified: int, abiUnverified: int, abiMismatches: int, runtimeTested: int, manualOverrides: int, bridgeCallable: int,
    metrics: Metrics)

  // ---- metrics ----

  /** To the nearest integer, halves away from zero. */
  function Round(x: real): int {
    if x < 0.0 then -(-x + 0.5).Floor else (x + 0.5).Floor
  }

  function MetricOf(n: int, d: int): Metric {
    Metric(n, d, if d == 0 then 100.0 else Round(n as real * 10000.0 / d as real) as real / 100.0)
  }

  // ---- building a report ----

  predicate HasOfficial(symbols: seq<Symbol>) {
    exists i :: 0 <= i < |symbols| && !symbols[i].isFixture
  }

  /** Fixtures count only when there is nothing else. */
  predicate IsCounted(s: Symbol, official: bool) {
    !(official && s.isFixture)
  }

  function Select(symbols: seq<Symbol>, official: bool, counted: bool): seq<Symbol> {
    if symbols == [] then []
    else
      var before, s := Select(symbols[..|symbols| - 1], official, counted), symbols[|symbols| - 1];
      if IsCounted(s, official) == counted then before + [s] else before
  }

  function Architectures(s: Symbol): seq<string> {
    if |s.architectures| == 0 then [s.architecture] else s.architectures
  }

  function AddAll(m: map<string, int>, keys: seq<string>): map<string, int> {
    if keys == [] then m else AddOne(AddAll(m, keys[..|keys| - 1]), keys[|keys| - 1])
  }

  function CountArchitectures(symbols: seq<Symbol>): map<string, int> {
    if symbols == [] then map[] else AddAll(CountArchitectures(symbols[..|symbols| - 1]), Architectures(symbols[|symbols| - 1]))
  }

  function SourceOf(s: Symbol): string { s.sourceId }
  function NamespaceOf(s: Symbol): string { s.namespace }
  function KindOf(s: Symbol): string { s.kind }
  function BackendOf(s: Symbol): string { s.backend }
  function StatusOf(s: Symbol): Status { s.status }
  function ReasonOf(s: Symbol): string { s.statusReason }

  predicate IsAccounted(s: Symbol) { IsValidStatus(s.status) }
  predicate IsOfGenerated(s: Symbol) { IsGenerated(s.status) }
  predicate IsSkipped(s: Symbol) { !LooksGenerated(s.status) }
  predicate IsPureGo(s: Symbol) { s.status.GeneratedPureGo? }
  predicate IsAssembly(s: Symbol) { s.status.GeneratedAssembly? }
  predicate IsCallableBridge(s: Symbol) { s.status.GeneratedCgoBridge? && s.abiVerified }
  predicate IsAbiVerified(s: Symbol) { s.abiVerified }
  predicate IsRuntimeTested(s: Symbol) { s.runtimeTested }
  predicate IsManual(s: Symbol) { s.manualOverride }

  function Skipped(symbols: seq<Symbol>): seq<Symbol> {
    if symbols == [] then []
    else
      var before, s := Skipped(symbols[..|symbols| - 1]), symbols[|symbols| - 1];
      if IsSkipped(s) then before + [s] else before
  }

  function MetricsOf(symbols: seq<Symbol>): Metrics {
    var n := |symbols|;
    Metrics(MetricOf(n, n), MetricOf(HowMany(symbols, IsAccounted), n), MetricOf(HowMany(symbols, IsOfGenerated), n),
            MetricOf(HowMany(symbols, IsPureGo), n), MetricOf(HowMany(symbols, IsAssembly), n),
            MetricOf(HowMany(symbols, IsCallableBridge), n), MetricOf(HowMany(symbols, IsAbiVerified), n),
            MetricOf(HowMany(symbols, IsRuntimeTested), n))
  }

  /** The report of the symbols that count, and of the fixtures left out. */
  function ReportOf(inv: Inventory): Report {
    var official := HasOfficial(inv.symbols);
    var symbols, excluded := Select(inv.symbols, official, true), Select(inv.symbols, official, false);
    Report(1, if official then OfficialSources else Fixture, inv.generatorVersion, inv.manifestHash, |symbols|,
           CountBy(symbols, SourceOf), CountBy(symbols, NamespaceOf), CountBy(symbols, KindOf), CountArchitectures(symbols),
           CountBy(symbols, BackendOf), CountBy(symbols, StatusOf), CountBy(Skipped(symbols), ReasonOf), CountBy(excluded, SourceOf),
           HowMany(symbols, IsAbiVerified), |symbols| - HowMany(symbols, IsAbiVerified), 0, HowMany(symbols, IsRuntimeTested),
           HowMany(symbols, IsManual), HowMany(symbols, IsCallableBridge), MetricsOf(symbols))
  }

  // ---- consistency ----

  predicate IsHexDigit(c: char) {
    '0' <= c <= '9' || 'a' <= c <= 'f' || 'A' <= c <= 'F'
  }

  predicate IsHash(s: string) {
    |s| == 64 && forall i :: 0 <= i < 64 ==> IsHexDigit(s[i])
  }

  /** The arithmetic a report is checked in: the program's 64 bits, or unbounded. */
  datatype Width = Bits64 | Unbounded

  function Fit(w: Width, n: int): int {
    if w == Bits64 then Wrap64(n) else n
  }

  ghost predicate Partitions<K(!new)>(counts: map<K, int>, total: int, w: Width) {
    !HasNegative(counts) && Fit(w, Sum(counts)) == total
  }

  function GeneratedIn(byStatus: map<Status, int>): int {
    At(byStatus, GeneratedPureGo) + At(byStatus, GeneratedAssembly) + At(byStatus, GeneratedCgoBridge)
    + At(byStatus, GeneratedTypeOnly) + At(byStatus, GeneratedManualOverride)
  }

  predicate HasIdentity(r: Report) {
    r.schemaVersion == 1 && !r.scope.OtherScope? && r.generatorVersion != "" && IsHash(r.manifestHash) && r.total > 0
  }

  ghost predicate HasPartitions(r: Report, w: Width) {
    && Partitions(r.bySource, r.total, w) && Partitions(r.byNamespace, r.total, w) && Partitions(r.byKind, r.total, w)
    && Partitions(r.byBackend, r.total, w) && Partitions(r.byStatus, r.total, w)
    && !HasNegative(r.byArchitecture) && Fit(w, Sum(r.byArchitecture)) >= r.total
    && !HasNegative(r.excludedBySource)
    && (forall s :: s in r.byStatus ==> s.Unclassified? || IsValidStatus(s))
    && Partitions(r.bySkipReason, Fit(w, r.total - Fit(w, GeneratedIn(r.byStatus))), w)
  }

  predicate HasRanges(r: Report, w: Width) {
    && r.abiVerified >= 0 && r.abiUnverified >= 0 && Fit(w, r.abiVerified + r.abiUnverified) == r.total
    && 0 <= r.runtimeTested <= r.total && 0 <= r.manualOverrides <= r.total && r.abiMismatches >= 0
    && 0 <= r.bridgeCallable <= At(r.byStatus, GeneratedCgoBridge) && r.bridgeCallable <= r.abiVerified
  }

  predicate HasMetrics(r: Report, w: Width) {
    && r.metrics.ingestion == MetricOf(r.total, r.total)
    && r.metrics.accounting == MetricOf(Fit(w, r.total - At(r.byStatus, Unclassified)), r.total)
    && r.metrics.generation == MetricOf(Fit(w, GeneratedIn(r.byStatus)), r.total)
    && r.metrics.pureGo == MetricOf(At(r.byStatus, GeneratedPureGo), r.total)
    && r.metrics.assembly == MetricOf(At(r.byStatus, GeneratedAssembly), r.total)
    && r.metrics.bridge == MetricOf(r.bridgeCallable, r.total)
    && r.metrics.abiVerified == MetricOf(r.abiVerified, r.total)
    && r.metrics.runtimeTested == MetricOf(r.runtimeTested, r.total)
  }

  ghost predicate IsConsistent(r: Report, w: Width) {
    HasIdentity(r) && HasPartitions(r, w) && HasRanges(r, w) && HasMetrics(r, w)
  }

  // ---- built reports are consistent ----

  predicate AllKnown(symbols: seq<Symbol>) {
    forall i :: 0 <= i < |symbols| ==> !symbols[i].status.OtherStatus?
  }

  lemma CountedOneMore(symbols: seq<Symbol>, s: Symbol)
    ensures var more := symbols + [s];
      && CountBy(more, SourceOf) == AddOne(CountBy(symbols, SourceOf), s.sourceId)
      && CountBy(more, NamespaceOf) == AddOne(CountBy(symbols, NamespaceOf), s.namespace)
      && CountBy(more, KindOf) == AddOne(CountBy(symbols, KindOf), s.kind)
      && CountBy(more, BackendOf) == AddOne(CountBy(symbols, BackendOf), s.backend)
      && CountBy(more, StatusOf) == AddOne(CountBy(symbols, StatusOf), s.status)
      && CountArchitectures(more) == AddAll(CountArchitectures(symbols), Architectures(s))
      && Skipped(more) == (if IsSkipped(s) then Skipped(symbols) + [s] else Skipped(symbols))
      && HowMany(more, IsAccounted) == HowMany(symbols, IsAccounted) + (if IsAccounted(s) then 1 else 0)
      && HowMany(more, IsOfGenerated) == HowMany(symbols, IsOfGenerated) + (if IsOfGenerated(s) then 1 else 0)
      && HowMany(more, IsPureGo) == HowMany(symbols, IsPureGo) + (if IsPureGo(s) then 1 else 0)
      && HowMany(more, IsAssembly) == HowMany(symbols, IsAssembly) + (if IsAssembly(s) then 1 else 0)
      && HowMany(more, IsCallableBridge) == HowMany(symbols, IsCallableBridge) + (if IsCallableBridge(s) then 1 else 0)
      && HowMany(more, IsAbiVerified) == HowMany(symbols, IsAbiVerified) + (if s.abiVerified then 1 else 0)
      && HowMany(more, IsRuntimeTested) == HowMany(symbols, IsRuntimeTested) + (if s.runtimeTested then 1 else 0)
      && HowMany(more, IsManual) == HowMany(symbols, IsManual) + (if s.manualOverride then 1 else 0)
  {
    assert (symbols + [s])[..|symbols|] == symbols;
  }

  /** The counts by status say what the other counts say. */
  lemma {:induction false} StatusCounts(symbols: seq<Symbol>)
    ensures GeneratedIn(CountBy(symbols, StatusOf)) == HowMany(symbols, IsOfGenerated)
    ensures At(CountBy(symbols, StatusOf), GeneratedPureGo) == HowMany(symbols, IsPureGo)
    ensures At(CountBy(symbols, StatusOf), GeneratedAssembly) == HowMany(symbols, IsAssembly)
    ensures At(CountBy(symbols, StatusOf), GeneratedCgoBridge) >= HowMany(symbols, IsCallableBridge)
  {
    if symbols != [] {
      var before, s := symbols[..|symbols| - 1], symbols[|symbols| - 1];
      assert symbols == before + [s];
      StatusCounts(before);
      CountedOneMore(before, s);
      hide CountBy, HowMany, Skipped, GeneratedIn;
      GeneratedOneMore(CountBy(before, StatusOf), s.status);
    }
  }

  lemma GeneratedOneMore(m: map<Status, int>, s: Status)
    ensures GeneratedIn(AddOne(m, s)) == GeneratedIn(m) + if IsGenerated(s) then 1 else 0
  {
  }

  /** With all statuses known, the rest are the unclassified and the skipped. */
  lemma {:induction false} OtherCounts(symbols: seq<Symbol>)
    requires AllKnown(symbols)
    ensures HowMany(symbols, IsAccounted) == |symbols| - At(CountBy(symbols, StatusOf), Unclassified)
    ensures |Skipped(symbols)| == |symbols| - HowMany(symbols, IsOfGenerated)
  {
    if symbols != [] {
      OtherCounts(symbols[..|symbols| - 1]);
    }
  }

  lemma {:induction false} StatusKeys(symbols: seq<Symbol>)
    ensures (forall s :: s in CountBy(symbols, StatusOf) ==> !s.OtherStatus?) <==> AllKnown(symbols)
  {
    if symbols != [] {
      var n := |symbols| - 1;
      var before := CountBy(symbols[..n], StatusOf);
      StatusKeys(symbols[..n]);
      assert forall s :: s in CountBy(symbols, StatusOf) <==> s in before || s == symbols[n].status;
      assert symbols == symbols[..n] + [symbols[n]];
    }
  }

  lemma {:induction false} AddAllAddsUp(m: map<string, int>, keys: seq<string>)
    requires !HasNegative(m)
    ensures !HasNegative(AddAll(m, keys)) && Sum(AddAll(m, keys)) == Sum(m) + |keys|
  {
    if keys != [] {
      var before, k := AddAll(m, keys[..|keys| - 1]), keys[|keys| - 1];
      AddAllAddsUp(m, keys[..|keys| - 1]);
      SumChange(before, k, At(before, k) + 1);
      assert k in before ==> before[k] >= 0;
    }
  }

  lemma {:induction false} ArchitecturesCover(symbols: seq<Symbol>)
    ensures !HasNegative(CountArchitectures(symbols)) && Sum(CountArchitectures(symbols)) >= |symbols|
  {
    if symbols != [] {
      var n := |symbols| - 1;
      ArchitecturesCover(symbols[..n]);
      AddAllAddsUp(CountArchitectures(symbols[..n]), Architectures(symbols[n]));
    }
  }

  lemma {:induction false} SelectIsEmpty(symbols: seq<Symbol>, official: bool)
    ensures Select(symbols, official, true) == [] <==> forall i :: 0 <= i < |symbols| ==> !IsCounted(symbols[i], official)
  {
    if symbols != [] {
      var n := |symbols| - 1;
      SelectIsEmpty(symbols[..n], official);
      assert symbols == symbols[..n] + [symbols[n]];
    }
  }

  lemma CountedPartition<K(!new)>(symbols: seq<Symbol>, key: Symbol -> K)
    ensures Partitions(CountBy(symbols, key), |symbols|, Unbounded)
  {
    CountsAddUp(symbols, key);
  }

  lemma BuiltPartitions(inv: Inventory)
    ensures var r, symbols := ReportOf(inv), Select(inv.symbols, HasOfficial(inv.symbols), true);
      HasPartitions(r, Unbounded) <==> AllKnown(symbols)
  {
    var symbols, excluded := Select(inv.symbols, HasOfficial(inv.symbols), true), Select(inv.symbols, HasOfficial(inv.symbols), false);
    CountedPartition(symbols, SourceOf);
    CountedPartition(symbols, NamespaceOf);
    CountedPartition(symbols, KindOf);
    CountedPartition(symbols, BackendOf);
    CountedPartition(symbols, StatusOf);
    CountedPartition(Skipped(symbols), ReasonOf);
    CountedPartition(excluded, SourceOf);
    ArchitecturesCover(symbols);
    StatusCounts(symbols);
    if AllKnown(symbols) {
      OtherCounts(symbols);
    }
    StatusKeys(symbols);
    hide CountBy, HowMany, Skipped, CountArchitectures, AllKnown, MetricsOf, HasOfficial, Select, GeneratedIn, Partitions;
    PartitionHasNoNegative(CountBy(excluded, SourceOf), |excluded|);
  }

  lemma PartitionHasNoNegative<K(!new)>(m: map<K, int>, total: int)
    ensures Partitions(m, total, Unbounded) ==> !HasNegative(m)
  {
  }

  lemma BuiltRanges(inv: Inventory)
    ensures HasRanges(ReportOf(inv), Unbounded)
  {
    var symbols := Select(inv.symbols, HasOfficial(inv.symbols), true);
    hide CountBy, HowMany, Skipped, CountArchitectures, HasOfficial, Select, MetricsOf;
    StatusCounts(symbols);
    HowManyAtMost(symbols, IsCallableBridge, IsAbiVerified);
    HowManyAtMost(symbols, IsRuntimeTested, IsRuntimeTested);
    HowManyAtMost(symbols, IsManual, IsManual);
  }

  lemma BuiltMetrics(inv: Inventory)
    requires AllKnown(Select(inv.symbols, HasOfficial(inv.symbols), true))
    ensures HasMetrics(ReportOf(inv), Unbounded)
  {
    var symbols := Select(inv.symbols, HasOfficial(inv.symbols), true);
    hide CountBy, HowMany, Skipped, CountArchitectures, HasOfficial, Select, MetricOf, AllKnown;
    StatusCounts(symbols);
    OtherCounts(symbols);
  }

  /** A built report is consistent exactly when the inventory names its generator and
      its manifest, has symbols, and leaves no counted symbol with an unknown
      status. */
  lemma BuiltReportsAreConsistent(inv: Inventory)
    ensures IsConsistent(ReportOf(inv), Unbounded) <==>
      && inv.generatorVersion != "" && IsHash(inv.manifestHash) && inv.symbols != []
      && AllKnown(Select(inv.symbols, HasOfficial(inv.symbols), true))
  {
    var official := HasOfficial(inv.symbols);
    BuiltPartitions(inv);
    BuiltRanges(inv);
    if AllKnown(Select(inv.symbols, official, true)) {
      BuiltMetrics(inv);
    }
    SelectIsEmpty(inv.symbols, official);
    assert official ==> exists i :: 0 <= i < |inv.symbols| && IsCounted(inv.symbols[i], official);
    assert inv.symbols != [] && !official ==> IsCounted(inv.symbols[0], official);
    hide HasPartitions, HasRanges, HasMetrics, AllKnown, IsHash, MetricsOf, CountBy, HowMany, Skipped, CountArchitectures, Select;
  }

  // ---- the program's loops ----

  method Build(inv: Inventory) returns (r: Report)
    ensures r == ReportOf(inv)
  {
    var official := false;
    for i := 0 to |inv.symbols|
      invariant !official && !HasOfficial(inv.symbols[..i])
    {
      if !inv.symbols[i].isFixture {
        official := true;
        break;
      }
    }
    r := BuildCounting(inv, official);
  }

  lemma NothingCounted(official: bool)
    ensures Select([], official, true) == [] && Select([], official, false) == [] && Skipped([]) == []
    ensures CountBy([], SourceOf) == map[] && CountBy([], NamespaceOf) == map[] && CountBy([], KindOf) == map[]
    ensures CountBy([], BackendOf) == map[] && CountBy([], StatusOf) == map[] && CountBy([], ReasonOf) == map[]
    ensures CountArchitectures([]) == map[]
    ensures HowMany([], IsAccounted) == 0 && HowMany([], IsOfGenerated) == 0 && HowMany([], IsPureGo) == 0
    ensures HowMany([], IsAssembly) == 0 && HowMany([], IsCallableBridge) == 0 && HowMany([], IsAbiVerified) == 0
    ensures HowMany([], IsRuntimeTested) == 0 && HowMany([], IsManual) == 0
  {
  }

  lemma SelectOneMore(symbols: seq<Symbol>, i: nat, official: bool)
    requires i < |symbols|
    ensures forall counted: bool ::
      Select(symbols[..i + 1], official, counted)
      == Select(symbols[..i], official, counted) + if IsCounted(symbols[i], official) == counted then [symbols[i]] else []
  {
    assert symbols[..i + 1][..i] == symbols[..i];
  }

  method BuildCounting(inv: Inventory, official: bool) returns (r: Report)
    requires official == HasOfficial(inv.symbols)
    ensures r == ReportOf(inv)
  {
    hide HasOfficial, Architectures, MetricOf, CountBy, HowMany, Skipped, CountArchitectures, Select, AddOne, AddAll;
    NothingCounted(official);
    var bySource, byNamespace, byKind, byArchitecture: map<string, int> := map[], map[], map[], map[];
    var byBackend, bySkipReason, excludedBySource: map<string, int> := map[], map[], map[];
    var byStatus: map<Status, int> := map[];
    var total, accounted, generated, pureGo, assembly, bridge, abiVerified, runtimeTested, manual := 0, 0, 0, 0, 0, 0, 0, 0, 0;
    ghost var symbols, excluded: seq<Symbol> := [], [];
    for i := 0 to |inv.symbols|
      invariant symbols == Select(inv.symbols[..i], official, true) && excluded == Select(inv.symbols[..i], official, false)
      invariant total == |symbols| && excludedBySource == CountBy(excluded, SourceOf)
      invariant bySource == CountBy(symbols, SourceOf) && byNamespace == CountBy(symbols, NamespaceOf)
      invariant byKind == CountBy(symbols, KindOf) && byArchitecture == CountArchitectures(symbols)
      invariant byBackend == CountBy(symbols, BackendOf) && byStatus == CountBy(symbols, StatusOf)
      invariant bySkipReason == CountBy(Skipped(symbols), ReasonOf)
      invariant accounted == HowMany(symbols, IsAccounted) && generated == HowMany(symbols, IsOfGenerated)
      invariant pureGo == HowMany(symbols, IsPureGo) && assembly == HowMany(symbols, IsAssembly) && bridge == HowMany(symbols, IsCallableBridge)
      invariant abiVerified == HowMany(symbols, IsAbiVerified) && runtimeTested == HowMany(symbols, IsRuntimeTested)
      invariant manual == HowMany(symbols, IsManual)
    {
      var s := inv.symbols[i];
      SelectOneMore(inv.symbols, i, official);
      if official && s.isFixture {
        CountOneMore(excluded, s, SourceOf);
        assert SourceOf(s) == s.sourceId;
        excluded := excluded + [s];
        excludedBySource := AddOne(excludedBySource, s.sourceId);
        continue;
      }
      CountedOneMore(symbols, s);
      total := total + 1;
      bySource, byNamespace, byKind := AddOne(bySource, s.sourceId), AddOne(byNamespace, s.namespace), AddOne(byKind, s.kind);
      byArchitecture := CountEach(byArchitecture, Architectures(s));
      byBackend, byStatus := AddOne(byBackend, s.backend), AddOne(byStatus, s.status);
      if IsValidStatus(s.status) {
        accounted := accounted + 1;
      }
      if IsGenerated(s.status) {
        generated := generated + 1;
      }
      if s.status.GeneratedPureGo? {
        pureGo := pureGo + 1;
      } else if s.status.GeneratedAssembly? {
        assembly := assembly + 1;
      } else if s.status.GeneratedCgoBridge? && s.abiVerified {
        bridge := bridge + 1;
      }
      if !LooksGenerated(s.status) {
        CountOneMore(Skipped(symbols), s, ReasonOf);
        assert ReasonOf(s) == s.statusReason;
        bySkipReason := AddOne(bySkipReason, s.statusReason);
      }
      if s.abiVerified {
        abiVerified := abiVerified + 1;
      }
      if s.runtimeTested {
        runtimeTested := runtimeTested + 1;
      }
      if s.manualOverride {
        manual := manual + 1;
      }
      symbols := symbols + [s];
    }
    assert inv.symbols[..|inv.symbols|] == inv.symbols;
    r := Report(1, if official then OfficialSources else Fixture, inv.generatorVersion, inv.manifestHash, total, bySource, byNamespace,
                byKind, byArchitecture, byBackend, byStatus, bySkipReason, excludedBySource, abiVerified, total - abiVerified, 0,
                runtimeTested, manual, bridge,
                Metrics(MetricOf(total, total), MetricOf(accounted, total), MetricOf(generated, total), MetricOf(pureGo, total),
                        MetricOf(assembly, total), MetricOf(bridge, total), MetricOf(abiVerified, total), MetricOf(runtimeTested, total)));
  }

  method CountEach(m: map<string, int>, keys: seq<string>) returns (counts: map<string, int>)
    ensures counts == AddAll(m, keys)
  {
    counts := m;
    for i := 0 to |keys|
      invariant counts == AddAll(m, keys[..i])
    {
      assert keys[..i + 1][..i] == keys[..i];
      counts := AddOne(counts, keys[i]);
    }
    assert keys[..|keys|] == keys;
  }

  /** Every ingested symbol is either counted or listed as excluded. */
  lemma {:induction false} NothingLeftOut(symbols: seq<Symbol>, official: bool)
    ensures |Select(symbols, official, true)| + |Select(symbols, official, false)| == |symbols|
  {
    if symbols != [] {
      NothingLeftOut(symbols[..|symbols| - 1], official);
    }
  }

  method CheckPartition<K(==, !new)>(counts: map<K, int>, total: int) returns (ok: bool)
    ensures ok <==> Partitions(counts, total, Bits64)
  {
    var sum, negative := SumCounts(counts);
    ok := !negative && sum == total;
  }

  method CheckStatuses(byStatus: map<Status, int>) returns (ok: bool)
    ensures ok <==> forall s :: s in byStatus ==> s.Unclassified? || IsValidStatus(s)
  {
    ok := true;
    var todo := byStatus.Keys;
    while todo != {}
      invariant todo <= byStatus.Keys
      invariant ok <==> forall s :: s in byStatus.Keys - todo ==> s.Unclassified? || IsValidStatus(s)
    {
      var s :| s in todo;
      if !s.Unclassified? && !IsValidStatus(s) {
        ok := false;
      }
      todo := todo - {s};
    }
  }

  /** Tells whether a report, built or read back, is consistent in 64 bits. */
  method Validate(r: Report) returns (ok: bool)
    ensures ok <==> IsConsistent(r, Bits64)
  {
    hide Partitions, HasIdentity, HasRanges, HasMetrics, GeneratedIn, IsValidStatus, Wrap64;
    var identified := HasIdentity(r);
    var sources := CheckPartition(r.bySource, r.total);
    var namespaces := CheckPartition(r.byNamespace, r.total);
    var kinds := CheckPartition(r.byKind, r.total);
    var backends := CheckPartition(r.byBackend, r.total);
    var statuses := CheckPartition(r.byStatus, r.total);
    var architectures, negativeArchitecture := SumCounts(r.byArchitecture);
    var excluded, negativeExcluded := SumCounts(r.excludedBySource);
    var known := CheckStatuses(r.byStatus);
    var skipped := CheckPartition(r.bySkipReason, Wrap64(r.total - Wrap64(GeneratedIn(r.byStatus))));
    ok := identified && sources && namespaces && kinds && backends && statuses && !negativeArchitecture && architectures >= r.total
      && !negativeExcluded && known && skipped && HasRanges(r, Bits64) && HasMetrics(r, Bits64);
  }
}
