/** What a coverage report counts, told from the inventory symbol by symbol.
 */
module CoverageMeaning {
  import opened Counts
  import opened Statuses
  import opened Coverage
  import opened CoverageWidth

  /** Fixtures count only when all symbols are fixtures. */
  ghost predicate IsIn(inv: Inventory, i: nat) {
    i < |inv.symbols| && (inv.symbols[i].isFixture ==> forall j :: 0 <= j < |inv.symbols| ==> inv.symbols[j].isFixture)
  }

  ghost predicate IsLeftOut(inv: Inventory, i: nat) {
    i < |inv.symbols| && !IsIn(inv, i)
  }

  lemma InIsCounted(inv: Inventory, i: nat)
    requires i < |inv.symbols|
    ensures IsIn(inv, i) <==> IsCounted(inv.symbols[i], HasOfficial(inv.symbols))
  {
  }

  // ---- counting by places ----

  /** These are the places of the selected symbols that have this key. */
  ghost predicate ArePlaces<K(!new)>(symbols: seq<Symbol>, official: bool, counted: bool, key: Symbol -> K, k: K, places: set<nat>) {
    forall i: nat :: i in places <==> i < |symbols| && IsCounted(symbols[i], official) == counted && key(symbols[i]) == k
  }

  lemma PlacesBefore<K(!new)>(symbols: seq<Symbol>, official: bool, counted: bool, key: Symbol -> K, k: K, places: set<nat>)
    requires symbols != [] && ArePlaces(symbols, official, counted, key, k, places)
    ensures ArePlaces(symbols[..|symbols| - 1], official, counted, key, k, places - {|symbols| - 1})
    ensures |places| == |places - {|symbols| - 1}| + if |symbols| - 1 in places then 1 else 0
  {
    hide IsCounted;
    WithoutOne(places, |symbols| - 1);
  }

  lemma WithoutOne(places: set<nat>, n: nat)
    ensures |places| == |places - {n}| + if n in places then 1 else 0
  {
    if n in places {
      assert places == places - {n} + {n};
    } else {
      assert places == places - {n};
    }
  }

  lemma {:induction false} KeysAreCounted<K(!new)>(symbols: seq<Symbol>, official: bool, counted: bool, key: Symbol -> K, k: K, places: set<nat>)
    requires ArePlaces(symbols, official, counted, key, k, places)
    ensures At(CountBy(Select(symbols, official, counted), key), k) == |places|
  {
    if symbols == [] {
      assert places == {};
    } else {
      var n := |symbols| - 1;
      PlacesBefore(symbols, official, counted, key, k, places);
      KeysAreCounted(symbols[..n], official, counted, key, k, places - {n});
      CountOneMore(Select(symbols[..n], official, counted), symbols[n], key);
      hide CountBy;
    }
  }

  lemma {:induction false} SuchAreCounted(symbols: seq<Symbol>, official: bool, counted: bool, such: Symbol -> bool, places: set<nat>)
    requires ArePlaces(symbols, official, counted, such, true, places)
    ensures HowMany(Select(symbols, official, counted), such) == |places|
  {
    if symbols == [] {
      assert places == {};
    } else {
      var n := |symbols| - 1;
      PlacesBefore(symbols, official, counted, such, true, places);
      SuchAreCounted(symbols[..n], official, counted, such, places - {n});
      var before := Select(symbols[..n], official, counted);
      assert (before + [symbols[n]])[..|before|] == before;
    }
  }

  lemma {:induction false} SelectedAreCounted(symbols: seq<Symbol>, official: bool, counted: bool, key: Symbol -> bool, places: set<nat>)
    requires ArePlaces(symbols, official, counted, key, true, places) && forall s :: key(s)
    ensures |Select(symbols, official, counted)| == |places|
  {
    if symbols == [] {
      assert places == {};
    } else {
      var n := |symbols| - 1;
      PlacesBefore(symbols, official, counted, key, true, places);
      SelectedAreCounted(symbols[..n], official, counted, key, places - {n});
    }
  }

  /** The reason of a symbol that is skipped; others have none. */
  function SkipKey(s: Symbol): (bool, string) {
    if IsSkipped(s) then (true, s.statusReason) else (false, "")
  }

  lemma {:induction false} SkippedAreCounted(symbols: seq<Symbol>, official: bool, reason: string, places: set<nat>)
    requires ArePlaces(symbols, official, true, SkipKey, (true, reason), places)
    ensures At(CountBy(Skipped(Select(symbols, official, true)), ReasonOf), reason) == |places|
  {
    if symbols == [] {
      assert places == {};
    } else {
      var n := |symbols| - 1;
      var before := Select(symbols[..n], official, true);
      PlacesBefore(symbols, official, true, SkipKey, (true, reason), places);
      SkippedAreCounted(symbols[..n], official, reason, places - {n});
      CountedOneMore(before, symbols[n]);
      CountOneMore(Skipped(before), symbols[n], ReasonOf);
      hide CountBy, Skipped;
    }
  }

  // ---- architectures ----

  /** The architectures a symbol counts under: those it is available on, or its own if none
      are named. */
  predicate IsOn(s: Symbol, j: nat, architecture: string) {
    if s.architectures == [] then j == 0 && s.architecture == architecture else j < |s.architectures| && s.architectures[j] == architecture
  }

  ghost predicate ArePairs(symbols: seq<Symbol>, official: bool, architecture: string, pairs: set<(nat, nat)>) {
    forall i: nat, j: nat :: (i, j) in pairs <==> i < |symbols| && IsCounted(symbols[i], official) && IsOn(symbols[i], j, architecture)
  }

  lemma {:induction false} KeysAreAdded(m: map<string, int>, keys: seq<string>, k: string, places: set<nat>)
    requires forall j: nat :: j in places <==> j < |keys| && keys[j] == k
    ensures At(AddAll(m, keys), k) == At(m, k) + |places|
  {
    if keys == [] {
      assert places == {};
    } else {
      var n := |keys| - 1;
      KeysAreAdded(m, keys[..n], k, places - {n});
      WithoutOne(places, n);
    }
  }

  lemma NoPairs(pairs: set<(nat, nat)>)
    requires forall i: nat, j: nat :: (i, j) !in pairs
    ensures pairs == {}
  {
    assert forall p: (nat, nat) {:trigger p in pairs} :: p in pairs <==> (p.0, p.1) in pairs;
  }

  /** As many pairs with the first as there are seconds. */
  lemma {:induction false} PairsOfOne(n: nat, places: set<nat>, pairs: set<(nat, nat)>)
    requires forall i: nat, j: nat :: (i, j) in pairs <==> i == n && j in places
    ensures |pairs| == |places|
    decreases |places|
  {
    if places == {} {
      NoPairs(pairs);
    } else {
      var j :| j in places;
      PairsOfOne(n, places - {j}, pairs - {(n, j)});
      assert |places - {j}| == |places| - 1 && (n, j) in pairs;
    }
  }

  lemma PairsBefore(symbols: seq<Symbol>, official: bool, architecture: string, pairs: set<(nat, nat)>) returns (last: set<(nat, nat)>)
    requires symbols != [] && ArePairs(symbols, official, architecture, pairs)
    ensures ArePairs(symbols[..|symbols| - 1], official, architecture, pairs - last) && |pairs| == |pairs - last| + |last|
    ensures var n := |symbols| - 1;
      forall i: nat, j: nat :: (i, j) in last <==> i == n && IsCounted(symbols[n], official) && IsOn(symbols[n], j, architecture)
  {
    hide IsCounted, IsOn;
    last := set p | p in pairs && p.0 == |symbols| - 1;
    assert pairs == (pairs - last) + last;
  }

  lemma {:induction false} ArchitecturesAreCounted(symbols: seq<Symbol>, official: bool, architecture: string, pairs: set<(nat, nat)>)
    requires ArePairs(symbols, official, architecture, pairs)
    ensures At(CountArchitectures(Select(symbols, official, true)), architecture) == |pairs|
  {
    hide AddAll, IsOn, IsCounted;
    if symbols == [] {
      NoPairs(pairs);
    } else {
      var n := |symbols| - 1;
      var s, before := symbols[n], Select(symbols[..n], official, true);
      var last := PairsBefore(symbols, official, architecture, pairs);
      ArchitecturesAreCounted(symbols[..n], official, architecture, pairs - last);
      hide CountArchitectures, ArePairs;
      if IsCounted(s, official) {
        LastArchitectures(s, n, architecture, last, CountArchitectures(before));
        CountedOneMore(before, s);
      } else {
        NoPairs(last);
      }
    }
  }

  lemma LastArchitectures(s: Symbol, n: nat, architecture: string, last: set<(nat, nat)>, m: map<string, int>)
    requires forall i: nat, j: nat :: (i, j) in last <==> i == n && IsOn(s, j, architecture)
    ensures At(AddAll(m, Architectures(s)), architecture) == At(m, architecture) + |last|
  {
    hide AddAll;
    var keys := Architectures(s);
    var places := set j: nat | j < |keys| && keys[j] == architecture;
    assert keys == if s.architectures == [] then [s.architecture] else s.architectures;
    assert forall j: nat :: j in places <==> IsOn(s, j, architecture);
    PairsOfOne(n, places, last);
    KeysAreAdded(m, Architectures(s), architecture, places);
  }

  // ---- what a report says ----

  predicate AnySymbol(s: Symbol) {
    true
  }

  lemma AllInAreCounted(inv: Inventory)
    ensures forall i: nat :: i < |inv.symbols| ==> (IsIn(inv, i) <==> IsCounted(inv.symbols[i], HasOfficial(inv.symbols)))
  {
    forall i: nat | i < |inv.symbols|
      ensures IsIn(inv, i) <==> IsCounted(inv.symbols[i], HasOfficial(inv.symbols))
    {
      InIsCounted(inv, i);
    }
  }

  /** The total is of the symbols that count, and the scope says whether there are any that
      are no fixtures. */
  lemma TotalMeans(inv: Inventory)
    ensures var r := ReportOf(inv);
      && r.total == |set i: nat | i < |inv.symbols| && IsIn(inv, i)|
      && (r.scope == OfficialSources <==> exists i :: 0 <= i < |inv.symbols| && !inv.symbols[i].isFixture)
      && (r.scope == Fixture <==> forall i :: 0 <= i < |inv.symbols| ==> inv.symbols[i].isFixture)
      && r.schemaVersion == 1 && r.generatorVersion == inv.generatorVersion && r.manifestHash == inv.manifestHash
  {
    AllInAreCounted(inv);
    SelectedAreCounted(inv.symbols, HasOfficial(inv.symbols), true, AnySymbol, set i: nat | i < |inv.symbols| && IsIn(inv, i));
    hide Select, CountBy, HowMany, Skipped, CountArchitectures, MetricsOf, IsIn;
  }

  /** Maps count symbols under one of their fields. */
  lemma MapsMean(inv: Inventory, k: string)
    ensures var r, symbols := ReportOf(inv), inv.symbols;
      && At(r.bySource, k) == |set i: nat | i < |symbols| && IsIn(inv, i) && symbols[i].sourceId == k|
      && At(r.byNamespace, k) == |set i: nat | i < |symbols| && IsIn(inv, i) && symbols[i].namespace == k|
      && At(r.byKind, k) == |set i: nat | i < |symbols| && IsIn(inv, i) && symbols[i].kind == k|
  {
    var symbols, official := inv.symbols, HasOfficial(inv.symbols);
    AllInAreCounted(inv);
    hide IsIn, IsCounted, HasOfficial, Select, CountBy, HowMany, Skipped, CountArchitectures, MetricsOf;
    KeysAreCounted(symbols, official, true, SourceOf, k, set i: nat | i < |symbols| && IsIn(inv, i) && symbols[i].sourceId == k);
    KeysAreCounted(symbols, official, true, NamespaceOf, k, set i: nat | i < |symbols| && IsIn(inv, i) && symbols[i].namespace == k);
    KeysAreCounted(symbols, official, true, KindOf, k, set i: nat | i < |symbols| && IsIn(inv, i) && symbols[i].kind == k);
  }

  lemma StatusesMean(inv: Inventory, k: string, status: Status)
    ensures var r, symbols := ReportOf(inv), inv.symbols;
      && At(r.byBackend, k) == |set i: nat | i < |symbols| && IsIn(inv, i) && symbols[i].backend == k|
      && At(r.byStatus, status) == |set i: nat | i < |symbols| && IsIn(inv, i) && symbols[i].status == status|
      && At(r.excludedBySource, k) == |set i: nat | i < |symbols| && !IsIn(inv, i) && symbols[i].sourceId == k|
  {
    var symbols, official := inv.symbols, HasOfficial(inv.symbols);
    AllInAreCounted(inv);
    hide IsIn, IsCounted, HasOfficial, Select, CountBy, HowMany, Skipped, CountArchitectures, MetricsOf;
    KeysAreCounted(symbols, official, true, BackendOf, k, set i: nat | i < |symbols| && IsIn(inv, i) && symbols[i].backend == k);
    KeysAreCounted(symbols, official, true, StatusOf, status, set i: nat | i < |symbols| && IsIn(inv, i) && symbols[i].status == status);
    KeysAreCounted(symbols, official, false, SourceOf, k, set i: nat | i < |symbols| && !IsIn(inv, i) && symbols[i].sourceId == k);
  }

  /** The map by skip reason counts the symbols whose status is not spelled as a generated
      one; the map by architecture counts symbols once for every architecture they are on. */
  lemma ReasonsMean(inv: Inventory, k: string)
    ensures At(ReportOf(inv).bySkipReason, k)
         == |set i: nat | i < |inv.symbols| && IsIn(inv, i) && inv.symbols[i].statusReason == k && !IsSpelledGenerated(inv.symbols[i].status)|
  {
    AllInAreCounted(inv);
    hide IsIn, IsCounted, HasOfficial, Select, CountBy, HowMany, Skipped, CountArchitectures, MetricsOf;
    SkippedAreCounted(inv.symbols, HasOfficial(inv.symbols), k,
                      set i: nat | i < |inv.symbols| && IsIn(inv, i) && inv.symbols[i].statusReason == k && !IsSpelledGenerated(inv.symbols[i].status));
  }

  predicate IsSpelledGenerated(s: Status) {
    s in {GeneratedPureGo, GeneratedAssembly, GeneratedCgoBridge, GeneratedTypeOnly, GeneratedManualOverride}
    || (s.OtherStatus? && "generated-" <= s.text)
  }

  lemma ArchitecturesMean(inv: Inventory, k: string, pairs: set<(nat, nat)>)
    requires forall i: nat, j: nat :: (i, j) in pairs <==> i < |inv.symbols| && IsIn(inv, i) && IsOn(inv.symbols[i], j, k)
    ensures At(ReportOf(inv).byArchitecture, k) == |pairs|
  {
    AllInAreCounted(inv);
    hide IsIn, IsCounted, HasOfficial, Select, CountBy, HowMany, Skipped, CountArchitectures, MetricsOf, IsOn;
    ArchitecturesAreCounted(inv.symbols, HasOfficial(inv.symbols), k, pairs);
  }

  /** The other counts. */
  lemma FlagsMean(inv: Inventory)
    ensures var r, symbols := ReportOf(inv), inv.symbols;
      && r.abiVerified == |set i: nat | i < |symbols| && IsIn(inv, i) && symbols[i].abiVerified|
      && r.abiUnverified == r.total - r.abiVerified && r.abiMismatches == 0
      && r.runtimeTested == |set i: nat | i < |symbols| && IsIn(inv, i) && symbols[i].runtimeTested|
      && r.manualOverrides == |set i: nat | i < |symbols| && IsIn(inv, i) && symbols[i].manualOverride|
      && r.bridgeCallable == |set i: nat | i < |symbols| && IsIn(inv, i) && symbols[i].status == GeneratedCgoBridge && symbols[i].abiVerified|
  {
    var symbols, official := inv.symbols, HasOfficial(inv.symbols);
    AllInAreCounted(inv);
    hide IsIn, IsCounted, HasOfficial, Select, CountBy, HowMany, Skipped, CountArchitectures, MetricsOf;
    SuchAreCounted(symbols, official, true, IsAbiVerified, set i: nat | i < |symbols| && IsIn(inv, i) && symbols[i].abiVerified);
    SuchAreCounted(symbols, official, true, IsRuntimeTested, set i: nat | i < |symbols| && IsIn(inv, i) && symbols[i].runtimeTested);
    SuchAreCounted(symbols, official, true, IsManual, set i: nat | i < |symbols| && IsIn(inv, i) && symbols[i].manualOverride);
    SuchAreCounted(symbols, official, true, IsCallableBridge,
                   set i: nat | i < |symbols| && IsIn(inv, i) && symbols[i].status == GeneratedCgoBridge && symbols[i].abiVerified);
  }

  /** This part of this whole, in percent to two places. */
  predicate IsShare(m: Metric, part: int, whole: int) {
    && m.numerator == part && m.denominator == whole
    && if whole == 0 then m.percent == 100.0
       else -1.0 <= 200.0 * (m.percent - 100.0 * part as real / whole as real) <= 1.0
  }

  lemma {:induction false} MetricIsShare(n: int, d: int)
    ensures IsShare(MetricOf(n, d), n, d)
  {
    if d != 0 {
      var x := n as real * 10000.0 / d as real;
      assert -0.5 <= Round(x) as real - x <= 0.5;
      assert x == 100.0 * (100.0 * n as real / d as real) by {
        assert n as real * 10000.0 == (100.0 * n as real) * 100.0;
      }
    }
  }

  /** Every metric is the share of the symbols it is about in all that count. */
  lemma MetricsMean(inv: Inventory)
    ensures var r, symbols := ReportOf(inv), inv.symbols;
      && IsShare(r.metrics.ingestion, r.total, r.total)
      && IsShare(r.metrics.accounting, |set i: nat | i < |symbols| && IsIn(inv, i) && IsValidStatus(symbols[i].status)|, r.total)
      && IsShare(r.metrics.generation,
                 |set i: nat | i < |symbols| && IsIn(inv, i) && symbols[i].status in
                    {GeneratedPureGo, GeneratedAssembly, GeneratedCgoBridge, GeneratedTypeOnly, GeneratedManualOverride}|, r.total)
      && IsShare(r.metrics.pureGo, |set i: nat | i < |symbols| && IsIn(inv, i) && symbols[i].status == GeneratedPureGo|, r.total)
      && IsShare(r.metrics.assembly, |set i: nat | i < |symbols| && IsIn(inv, i) && symbols[i].status == GeneratedAssembly|, r.total)
      && IsShare(r.metrics.bridge, r.bridgeCallable, r.total) && IsShare(r.metrics.abiVerified, r.abiVerified, r.total)
      && IsShare(r.metrics.runtimeTested, r.runtimeTested, r.total)
  {
    var symbols, official := inv.symbols, HasOfficial(inv.symbols);
    AllInAreCounted(inv);
    hide IsIn, IsCounted, HasOfficial, Select, CountBy, HowMany, Skipped, CountArchitectures, MetricOf, IsShare;
    SuchAreCounted(symbols, official, true, IsAccounted, set i: nat | i < |symbols| && IsIn(inv, i) && IsValidStatus(symbols[i].status));
    SuchAreCounted(symbols, official, true, IsOfGenerated,
                   set i: nat | i < |symbols| && IsIn(inv, i) && symbols[i].status in
                     {GeneratedPureGo, GeneratedAssembly, GeneratedCgoBridge, GeneratedTypeOnly, GeneratedManualOverride});
    SuchAreCounted(symbols, official, true, IsPureGo, set i: nat | i < |symbols| && IsIn(inv, i) && symbols[i].status == GeneratedPureGo);
    SuchAreCounted(symbols, official, true, IsAssembly, set i: nat | i < |symbols| && IsIn(inv, i) && symbols[i].status == GeneratedAssembly);
    forall n, d {
      MetricIsShare(n, d);
    }
  }

  // ---- reports that were tampered with ----

  lemma WrapsDiffer(x: int, y: int)
    requires 0 < x - y < 0x1_0000_0000_0000_0000
    ensures Wrap64(x) != Wrap64(y)
  {
  }

  /** Changing one count of a partition breaks it. */
  lemma ChangeBreaks<K(!new)>(m: map<K, int>, total: int, k: K, n: int)
    requires Partitions(m, total, Bits64) && IsInt64(n) && IsInt64(At(m, k)) && n != At(m, k)
    ensures !Partitions(m[k := n], total, Bits64)
  {
    SumChange(m, k, n);
    var x, y := Sum(m), Sum(m[k := n]);
    if n > At(m, k) {
      WrapsDiffer(y, x);
    } else {
      WrapsDiffer(x, y);
    }
    hide Sum, Wrap64;
  }

  /** What the counts of a consistent report add up to. */
  ghost predicate AddUp(r: Report) {
    && Partitions(r.bySource, r.total, Bits64) && Partitions(r.byNamespace, r.total, Bits64) && Partitions(r.byKind, r.total, Bits64)
    && Partitions(r.byBackend, r.total, Bits64) && Partitions(r.byStatus, r.total, Bits64)
    && Partitions(r.bySkipReason, Fit(Bits64, r.total - Fit(Bits64, GeneratedIn(r.byStatus))), Bits64)
  }

  lemma ConsistentAddsUp(r: Report)
    requires IsConsistent(r, Bits64)
    ensures AddUp(r)
  {
    hide Partitions, HasIdentity, HasRanges, HasMetrics, GeneratedIn, Fit;
  }

  /** Two maps of counts with one sum do not differ in a single count. */
  predicate AreApart<K>(m: map<K, int>, changed: map<K, int>, k: K, n: int) {
    changed == m[k := n] ==> n == At(m, k)
  }

  lemma ChangedMap<K(!new)>(m: map<K, int>, changed: map<K, int>, total: int, k: K, n: int)
    requires Partitions(m, total, Bits64) && Partitions(changed, total, Bits64) && AllInt64(m) && IsInt64(n)
    ensures AreApart(m, changed, k, n)
  {
    hide Partitions;
    if changed == m[k := n] && n != At(m, k) {
      ChangeBreaks(m, total, k, n);
    }
  }

  /** Two consistent reports of one total never differ in a single count by source,
      namespace, kind, backend or status; nor, with the same statuses, by skip reason. */
  lemma ChangedCountsAreRefused(r: Report, q: Report, k: string, s: Status, n: int)
    requires IsConsistent(r, Bits64) && HasInt64Counts(r) && IsConsistent(q, Bits64) && IsInt64(n) && q.total == r.total
    ensures AreApart(r.bySource, q.bySource, k, n) && AreApart(r.byNamespace, q.byNamespace, k, n) && AreApart(r.byKind, q.byKind, k, n)
    ensures AreApart(r.byBackend, q.byBackend, k, n) && AreApart(r.byStatus, q.byStatus, s, n)
    ensures q.byStatus == r.byStatus ==> AreApart(r.bySkipReason, q.bySkipReason, k, n)
  {
    ConsistentAddsUp(r);
    ConsistentAddsUp(q);
    hide IsConsistent, Partitions, GeneratedIn, Fit, AllInt64, IsInt64, At, AreApart;
    ChangedMap(r.bySource, q.bySource, r.total, k, n);
    ChangedMap(r.byNamespace, q.byNamespace, r.total, k, n);
    ChangedMap(r.byKind, q.byKind, r.total, k, n);
    ChangedMap(r.byBackend, q.byBackend, r.total, k, n);
    ChangedMap(r.byStatus, q.byStatus, r.total, s, n);
    if q.byStatus == r.byStatus {
      ChangedMap(r.bySkipReason, q.bySkipReason, Fit(Bits64, r.total - Fit(Bits64, GeneratedIn(r.byStatus))), k, n);
    }
  }

  lemma MetricTells(n: int, d: int)
    ensures MetricOf(n, d).numerator == n && MetricOf(n, d).denominator == d
  {
  }

  lemma MetricsTell(r: Report)
    requires IsConsistent(r, Bits64)
    ensures r.metrics.ingestion.numerator == r.total && r.metrics.abiVerified.numerator == r.abiVerified
    ensures r.metrics.runtimeTested.numerator == r.runtimeTested && r.metrics.bridge.numerator == r.bridgeCallable
  {
    MetricTells(r.total, r.total);
    MetricTells(r.abiVerified, r.total);
    MetricTells(r.runtimeTested, r.total);
    MetricTells(r.bridgeCallable, r.total);
    hide HasIdentity, HasPartitions, HasRanges, GeneratedIn, Fit, MetricOf, At;
  }

  /** Nor can a total without the metrics, or the metrics without anything else. */
  lemma ChangedTotalsAreRefused(r: Report, q: Report)
    requires IsConsistent(r, Bits64) && IsConsistent(q, Bits64)
    ensures q.metrics == r.metrics ==>
      q.total == r.total && q.abiVerified == r.abiVerified && q.runtimeTested == r.runtimeTested && q.bridgeCallable == r.bridgeCallable
    ensures q == r.(metrics := q.metrics) ==> q == r
  {
    MetricsTell(r);
    MetricsTell(q);
    hide HasIdentity, HasPartitions, HasRanges, GeneratedIn, Fit, MetricOf, At;
  }

  /** And a consistent report names a version, a generator and the hash of an inventory that
      has symbols. */
  lemma ConsistentHasHead(r: Report)
    requires IsConsistent(r, Bits64)
    ensures r.schemaVersion == 1 && (r.scope == OfficialSources || r.scope == Fixture) && r.generatorVersion != "" && r.total > 0
    ensures |r.manifestHash| == 64
    ensures forall c :: c in r.manifestHash ==> '0' <= c <= '9' || 'a' <= c <= 'f' || 'A' <= c <= 'F'
  {
    hide HasPartitions, HasRanges, HasMetrics;
  }

  /** Its other counts are within each other. */
  lemma ConsistentRanges(r: Report)
    requires IsConsistent(r, Bits64) && HasInt64Counts(r)
    ensures r.abiVerified >= 0 && r.abiUnverified >= 0 && r.abiVerified + r.abiUnverified == r.total && r.abiMismatches >= 0
    ensures 0 <= r.runtimeTested <= r.total && 0 <= r.manualOverrides <= r.total
    ensures 0 <= r.bridgeCallable <= At(r.byStatus, GeneratedCgoBridge) && r.bridgeCallable <= r.abiVerified
    ensures forall s :: s in r.byStatus ==> !s.OtherStatus? && r.byStatus[s] >= 0
    ensures forall k :: k in r.byArchitecture ==> r.byArchitecture[k] >= 0
    ensures forall k :: k in r.excludedBySource ==> r.excludedBySource[k] >= 0
  {
    RangesWidth(r);
    hide HasIdentity, HasMetrics, Sum, GeneratedIn;
  }
}
