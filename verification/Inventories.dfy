/** Normalising a whole inventory: its sources, its symbols, its diagnostics and the
    hash of all of them.
 */
module Inventories {
  import opened Orders
  import opened Symbols
  import Normalization
  import NormalForms
  import SeqSort
  import Strings

  const SCHEMA_VERSION: int := 1

  datatype Source = Source(id: string, details: string)

  datatype Diagnostic = Diagnostic(severity: string, sourceId: string, symbolId: string, code: string, message: string)

  /** All of an inventory that its hash is taken of. */
  datatype Content = Content(
    schemaVersion: int, generatorVersion: string, sources: seq<Source>, symbols: seq<Symbol>, diagnostics: seq<Diagnostic>)

  // ---- the orders ----

  function CompareSources(a: Source, b: Source): int {
    Strings.Compare(a.id, b.id)
  }

  function KeyOf(d: Diagnostic): seq<string> {
    [d.sourceId, d.symbolId, d.code, d.message]
  }

  function CompareDiagnostics(a: Diagnostic, b: Diagnostic): int {
    CompareLists(Strings.Compare, KeyOf(a), KeyOf(b))
  }

  lemma TextsArePreordered()
    ensures IsPreorder(Strings.Compare)
  {
    hide Strings.Compare;
    forall a, b
      ensures Strings.Compare(a, b) == -Strings.Compare(b, a)
    {
      Strings.CompareIsAntisymmetric(a, b);
    }
    forall a, b, c | Strings.Compare(a, b) <= 0 && Strings.Compare(b, c) <= 0
      ensures Strings.Compare(a, c) <= 0
    {
      Strings.CompareIsTransitive(a, b, c);
    }
  }

  lemma SourcesArePreordered()
    ensures IsPreorder(CompareSources)
  {
    hide Strings.Compare;
    forall a, b
      ensures CompareSources(a, b) == -CompareSources(b, a)
    {
      Strings.CompareIsAntisymmetric(a.id, b.id);
    }
    forall a, b, c | CompareSources(a, b) <= 0 && CompareSources(b, c) <= 0
      ensures CompareSources(a, c) <= 0
    {
      Strings.CompareIsTransitive(a.id, b.id, c.id);
    }
  }

  lemma DiagnosticsArePreordered()
    ensures IsPreorder(CompareDiagnostics)
  {
    TextsArePreordered();
    hide Strings.Compare, CompareLists, KeyOf;
    forall a, b
      ensures CompareDiagnostics(a, b) == -CompareDiagnostics(b, a)
    {
      ListsAntisymmetric(Strings.Compare, KeyOf(a), KeyOf(b));
    }
    forall a, b, c | CompareDiagnostics(a, b) <= 0 && CompareDiagnostics(b, c) <= 0
      ensures CompareDiagnostics(a, c) <= 0
    {
      ListsTransitive(Strings.Compare, KeyOf(a), KeyOf(b), KeyOf(c));
    }
  }

  // ---- normalising ----

  function Normalized(hash: string -> string, c: Content): Content {
    Content(SCHEMA_VERSION, c.generatorVersion, SeqSort.Sort(CompareSources, c.sources), Normalization.Result(hash, c.symbols),
            SeqSort.Sort(CompareDiagnostics, c.diagnostics))
  }

  ghost predicate SourcesInOrder(a: Source, b: Source) {
    a.id == b.id || Strings.StandsBefore(a.id, b.id)
  }

  /** By source, then symbol, then code, then message. */
  ghost predicate DiagnosticsInOrder(a: Diagnostic, b: Diagnostic) {
    if a.sourceId != b.sourceId then Strings.StandsBefore(a.sourceId, b.sourceId)
    else if a.symbolId != b.symbolId then Strings.StandsBefore(a.symbolId, b.symbolId)
    else if a.code != b.code then Strings.StandsBefore(a.code, b.code)
    else a.message == b.message || Strings.StandsBefore(a.message, b.message)
  }

  /** The same sources and diagnostics in order, and the symbols' normal forms. */
  ghost predicate IsNormalized(hash: string -> string, before: Content, after: Content) {
    && after.schemaVersion == 1 && after.generatorVersion == before.generatorVersion
    && multiset(after.sources) == multiset(before.sources)
    && (forall i, j :: 0 <= i < j < |after.sources| ==> SourcesInOrder(after.sources[i], after.sources[j]))
    && NormalForms.IsNormalInventory(hash, before.symbols, after.symbols)
    && multiset(after.diagnostics) == multiset(before.diagnostics)
    && (forall i, j :: 0 <= i < j < |after.diagnostics| ==> DiagnosticsInOrder(after.diagnostics[i], after.diagnostics[j]))
  }

  lemma FirstTexts(p: string, q: string, a: seq<string>, b: seq<string>)
    ensures var c := Strings.Compare(p, q);
      CompareLists(Strings.Compare, [p] + a, [q] + b) == if c != 0 then c else CompareLists(Strings.Compare, a, b)
    ensures Strings.Compare(p, q) == 0 <==> p == q
    ensures Strings.StandsBefore(p, q) <==> Strings.Compare(p, q) < 0
  {
    assert ([p] + a)[1..] == a && ([q] + b)[1..] == b;
    Strings.CompareIsZero(p, q);
    Strings.CompareMeans(p, q);
  }

  lemma DiagnosticOrder(a: Diagnostic, b: Diagnostic)
    ensures CompareDiagnostics(a, b) <= 0 <==> DiagnosticsInOrder(a, b)
  {
    assert KeyOf(a) == [a.sourceId] + ([a.symbolId] + ([a.code] + ([a.message] + [])));
    assert KeyOf(b) == [b.sourceId] + ([b.symbolId] + ([b.code] + ([b.message] + [])));
    EndOfLists(Strings.Compare, [], []);
    hide Strings.Compare, Strings.StandsBefore, CompareLists;
    FirstTexts(a.message, b.message, [], []);
    FirstTexts(a.code, b.code, [a.message] + [], [b.message] + []);
    FirstTexts(a.symbolId, b.symbolId, [a.code] + ([a.message] + []), [b.code] + ([b.message] + []));
    FirstTexts(a.sourceId, b.sourceId, [a.symbolId] + ([a.code] + ([a.message] + [])), [b.symbolId] + ([b.code] + ([b.message] + [])));
  }

  lemma ListsAreInOrder(c: Content)
    ensures var sources, diagnostics := SeqSort.Sort(CompareSources, c.sources), SeqSort.Sort(CompareDiagnostics, c.diagnostics);
      && multiset(sources) == multiset(c.sources) && multiset(diagnostics) == multiset(c.diagnostics)
      && (forall i, j :: 0 <= i < j < |sources| ==> SourcesInOrder(sources[i], sources[j]))
      && (forall i, j :: 0 <= i < j < |diagnostics| ==> DiagnosticsInOrder(diagnostics[i], diagnostics[j]))
  {
    SourcesArePreordered();
    DiagnosticsArePreordered();
    var sources, diagnostics := SeqSort.Sort(CompareSources, c.sources), SeqSort.Sort(CompareDiagnostics, c.diagnostics);
    SeqSort.SortSorts(CompareSources, c.sources);
    SeqSort.SortSorts(CompareDiagnostics, c.diagnostics);
    hide SeqSort.Sort, Strings.Compare, Strings.StandsBefore, KeyOf, DiagnosticsInOrder, CompareDiagnostics, IsPreorder;
    forall i, j | 0 <= i < j < |sources|
      ensures SourcesInOrder(sources[i], sources[j])
    {
      assert CompareSources(sources[i], sources[j]) <= 0;
      Normalization.ComparedBefore(sources[i].id, sources[j].id);
    }
    forall i, j | 0 <= i < j < |diagnostics|
      ensures DiagnosticsInOrder(diagnostics[i], diagnostics[j])
    {
      assert CompareDiagnostics(diagnostics[i], diagnostics[j]) <= 0;
      DiagnosticOrder(diagnostics[i], diagnostics[j]);
    }
  }

  lemma NormalizedIsNormal(hash: string -> string, c: Content)
    requires Normalization.Accepted(hash, c.symbols)
    ensures IsNormalized(hash, c, Normalized(hash, c))
  {
    hide SeqSort.Sort, SourcesInOrder, DiagnosticsInOrder, NormalForms.IsNormalInventory, Normalization.Result, Normalization.Accepted;
    ListsAreInOrder(c);
    Normalization.ResultIsNormal(hash, c.symbols);
  }

  class Inventory {
    var schemaVersion: int
    var generatorVersion: string
    var manifestHash: string
    var sources: seq<Source>
    var symbols: array<Symbol>
    var diagnostics: seq<Diagnostic>

    constructor (generatorVersion: string, sources: seq<Source>, symbols: array<Symbol>, diagnostics: seq<Diagnostic>)
      ensures Contents() == Content(SCHEMA_VERSION, generatorVersion, sources, symbols[..], diagnostics)
      ensures this.symbols == symbols && manifestHash == ""
    {
      this.schemaVersion, this.generatorVersion, this.manifestHash := SCHEMA_VERSION, generatorVersion, "";
      this.sources, this.symbols, this.diagnostics := sources, symbols, diagnostics;
    }

    function Contents(): Content
      reads this, symbols
    {
      Content(schemaVersion, generatorVersion, sources, symbols[..], diagnostics)
    }

    /** Normalises in place and records the hash of the result; on failure, tells at which
        symbol, and leaves sources, diagnostics and hash as they were. */
    method Normalize(hash: string -> string, digest: Content -> string) returns (ok: bool, ghost stopped: nat)
      modifies this, symbols
      ensures symbols == old(symbols)
      ensures ok <==> Normalization.Accepted(hash, old(symbols[..]))
      ensures ok ==> Contents() == Normalized(hash, old(Contents())) && manifestHash == digest(Contents())
      ensures ok ==> IsNormalized(hash, old(Contents()), Contents())
      ensures ok <==> exists normal :: NormalForms.AreNormalForms(hash, old(symbols[..]), normal)
      ensures !ok ==>
        && Normalization.StoppedAt(hash, old(symbols[..]), symbols[..], stopped)
        && Contents() == old(Contents()).(schemaVersion := SCHEMA_VERSION, symbols := symbols[..]) && manifestHash == old(manifestHash)
    {
      hide SeqSort.Sort, CompareSources, CompareDiagnostics, Normalization.Result, Normalization.Accepted, Normalization.StoppedAt,
           IsNormalized, NormalForms.AreNormalForms, NormalForms.IsNormalInventory;
      ghost var before := Contents();
      schemaVersion := SCHEMA_VERSION;
      ok, stopped := Normalization.Normalize(hash, symbols);
      if ok {
        sources := SeqSort.Sort(CompareSources, sources);
        diagnostics := SeqSort.Sort(CompareDiagnostics, diagnostics);
        manifestHash := digest(Contents());
        NormalizedIsNormal(hash, before);
      }
    }
  }

  // ---- the order of the input is forgotten ----

  /** The same symbol but for the order of its provenance, whose entries differ in what
      they are sorted by. */
  ghost predicate SameButProvenance(s: Symbol, t: Symbol) {
    && t == s.(provenance := t.provenance) && multiset(s.provenance) == multiset(t.provenance)
    && SeqSort.IsDistinguishing(Normalization.CompareProvenance, t.provenance)
  }

  ghost predicate AllSameButProvenance(a: seq<Symbol>, b: seq<Symbol>) {
    |a| == |b| && forall i :: 0 <= i < |a| ==> SameButProvenance(a[i], b[i])
  }

  /** The same symbols in any order, each with its provenance in any order. */
  ghost predicate SameSymbols(a: seq<Symbol>, b: seq<Symbol>) {
    exists m :: multiset(a) == multiset(m) && AllSameButProvenance(m, b)
  }

  predicate DistinctIds(sources: seq<Source>) {
    forall i, j :: 0 <= i < j < |sources| ==> sources[i].id != sources[j].id
  }

  /** Diagnostics that are sorted as equal are equal: they do not differ in severity
      alone. */
  predicate DistinctDiagnostics(diagnostics: seq<Diagnostic>) {
    forall i, j :: 0 <= i < |diagnostics| && 0 <= j < |diagnostics| && KeyOf(diagnostics[i]) == KeyOf(diagnostics[j]) ==>
      diagnostics[i] == diagnostics[j]
  }

  /** The same inventory, with all of its lists in any order. */
  ghost predicate SameUpToOrder(a: Content, b: Content) {
    && a.generatorVersion == b.generatorVersion
    && multiset(a.sources) == multiset(b.sources) && DistinctIds(a.sources)
    && SameSymbols(a.symbols, b.symbols)
    && multiset(a.diagnostics) == multiset(b.diagnostics) && DistinctDiagnostics(a.diagnostics)
  }

  lemma SymbolsNormalizeAlike(hash: string -> string, a: seq<Symbol>, b: seq<Symbol>)
    requires AllSameButProvenance(a, b)
    ensures Normalization.NormalizeAll(hash, a) == Normalization.NormalizeAll(hash, b)
  {
    hide Normalization.Normalized, Normalization.CompareProvenance;
    forall i | 0 <= i < |a|
      ensures Normalization.Normalized(hash, a[i]) == Normalization.Normalized(hash, b[i])
    {
      Normalization.ProvenanceOrderIsForgotten(hash, a[i], b[i].provenance);
    }
  }

  lemma SymbolOrderIsForgotten(hash: string -> string, a: seq<Symbol>, b: seq<Symbol>)
    requires SameSymbols(a, b)
    ensures Normalization.Accepted(hash, a) <==> Normalization.Accepted(hash, b)
    ensures Normalization.Accepted(hash, a) ==> Normalization.Result(hash, a) == Normalization.Result(hash, b)
  {
    hide Normalization.NormalizeAll, Normalization.AllValid, Normalization.IdsAreUnique, AllSameButProvenance;
    var m :| multiset(a) == multiset(m) && AllSameButProvenance(m, b);
    Normalization.IngestionOrderIsForgotten(hash, a, m);
    SymbolsNormalizeAlike(hash, m, b);
  }

  lemma SourceOrderIsForgotten(a: seq<Source>, b: seq<Source>)
    requires multiset(a) == multiset(b) && DistinctIds(a)
    ensures SeqSort.Sort(CompareSources, a) == SeqSort.Sort(CompareSources, b)
  {
    hide Strings.Compare, SeqSort.Sort;
    forall i, j | 0 <= i < |a| && 0 <= j < |a| && CompareSources(a[i], a[j]) == 0
      ensures a[i] == a[j]
    {
      Strings.CompareIsZero(a[i].id, a[j].id);
    }
    SourcesArePreordered();
    SeqSort.SortForgetsOrder(CompareSources, a, b);
  }

  lemma {:induction false} EqualLists(a: seq<string>, b: seq<string>)
    requires CompareLists(Strings.Compare, a, b) == 0
    ensures a == b
  {
    if a != [] && b != [] {
      Strings.CompareIsZero(a[0], b[0]);
      EqualLists(a[1..], b[1..]);
      assert a == [a[0]] + a[1..] && b == [b[0]] + b[1..];
    }
  }

  lemma DiagnosticOrderIsForgotten(a: seq<Diagnostic>, b: seq<Diagnostic>)
    requires multiset(a) == multiset(b) && DistinctDiagnostics(a)
    ensures SeqSort.Sort(CompareDiagnostics, a) == SeqSort.Sort(CompareDiagnostics, b)
  {
    hide Strings.Compare, SeqSort.Sort, KeyOf, CompareLists;
    forall i, j | 0 <= i < |a| && 0 <= j < |a| && CompareDiagnostics(a[i], a[j]) == 0
      ensures a[i] == a[j]
    {
      EqualLists(KeyOf(a[i]), KeyOf(a[j]));
    }
    DiagnosticsArePreordered();
    SeqSort.SortForgetsOrder(CompareDiagnostics, a, b);
  }

  /** Inventories that differ only in the order of their lists are accepted alike, and
      normalise to the same inventory with the same hash. */
  lemma InputOrderIsForgotten(hash: string -> string, digest: Content -> string, a: Content, b: Content)
    requires SameUpToOrder(a, b)
    ensures Normalization.Accepted(hash, a.symbols) <==> Normalization.Accepted(hash, b.symbols)
    ensures Normalization.Accepted(hash, a.symbols) ==>
      Normalized(hash, a) == Normalized(hash, b) && digest(Normalized(hash, a)) == digest(Normalized(hash, b))
  {
    hide Normalization.Accepted, Normalization.Result, SameSymbols, DistinctIds, DistinctDiagnostics, SeqSort.Sort;
    SymbolOrderIsForgotten(hash, a.symbols, b.symbols);
    SourceOrderIsForgotten(a.sources, b.sources);
    DiagnosticOrderIsForgotten(a.diagnostics, b.diagnostics);
  }

  /** Normalising again succeeds and changes nothing, the hash included. */
  lemma NormalizationIsIdempotent(hash: string -> string, digest: Content -> string, c: Content)
    requires Normalization.Accepted(hash, c.symbols)
    ensures Normalization.Accepted(hash, Normalized(hash, c).symbols)
    ensures Normalized(hash, Normalized(hash, c)) == Normalized(hash, c)
    ensures digest(Normalized(hash, Normalized(hash, c))) == digest(Normalized(hash, c))
  {
    Normalization.NormalizationIsIdempotent(hash, c.symbols);
    SourcesArePreordered();
    DiagnosticsArePreordered();
    hide Normalization.Accepted, Normalization.Result, SeqSort.Sort, SeqSort.IsSorted, CompareSources, CompareDiagnostics, IsPreorder;
    SeqSort.SortSorts(CompareSources, c.sources);
    SeqSort.SortSorts(CompareDiagnostics, c.diagnostics);
    SeqSort.SortOfSorted(CompareSources, SeqSort.Sort(CompareSources, c.sources));
    SeqSort.SortOfSorted(CompareDiagnostics, SeqSort.Sort(CompareDiagnostics, c.diagnostics));
  }
}
