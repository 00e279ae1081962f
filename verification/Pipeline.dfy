/** The stages one after the other: numbering, overrides, normalisation, coverage. A
    symbol as one stage sees it is related to the same symbol as the next sees it.
 */
module Pipeline {
  import opened Counts
  import opened Statuses
  import Coverage
  import CoverageWidth
  import Disambiguation
  import Normalization
  import Overrides
  import Symbols

  type Inventory = seq<Symbols.Symbol>
  type Candidates = seq<Overrides.Symbol>

  // ---- one symbol, seen by two stages ----

  predicate SameIdentity(o: Overrides.Symbol, s: Symbols.Symbol) {
    o.identity == Overrides.Identity(s.sourceId, s.namespace, s.kind, s.nativeName, s.architecture, s.signature, s.genericArity, s.abiProfile)
  }

  /** What normalisation asks of a symbol besides its identity. */
  predicate IsFilledIn(o: Overrides.Symbol, s: Symbols.Symbol) {
    s.complete ==> IsValidStatus(o.status) && o.statusReason != "" && o.backend != ""
  }

  predicate IsCountedAs(o: Overrides.Symbol, c: Coverage.Symbol) {
    && c.sourceId == o.identity.sourceId && c.isFixture == (o.sourceType == Overrides.FIXTURE_SOURCE)
    && c.namespace == o.identity.namespace && c.kind == o.identity.kind && c.architecture == o.identity.architecture
    && c.status == o.status && c.statusReason == o.statusReason && c.backend == o.backend && c.manualOverride == o.manualOverride
  }

  ghost predicate SameIdentities(o: Candidates, s: Inventory) {
    |o| == |s| && forall i :: 0 <= i < |s| ==> SameIdentity(o[i], s[i])
  }

  ghost predicate AreFilledIn(o: Candidates, s: Inventory) {
    |o| == |s| && forall i :: 0 <= i < |s| ==> IsFilledIn(o[i], s[i])
  }

  /** The symbols counted are those of the run, in any order. */
  ghost predicate AreCountedAs(o: Candidates, c: seq<Coverage.Symbol>) {
    |c| == |o| && forall i :: 0 <= i < |c| ==> exists k :: 0 <= k < |o| && IsCountedAs(o[k], c[i])
  }

  // ---- identities across the stages ----

  lemma SameParts(o: Overrides.Symbol, s: Symbols.Symbol, t: Symbols.Symbol)
    requires SameIdentity(o, s) && SameIdentity(o, t)
    ensures Symbols.KeyParts(s) == Symbols.KeyParts(t)
    ensures Normalization.IsTrimmed(s) == Normalization.IsTrimmed(t) && Symbols.NulFree(s) == Symbols.NulFree(t)
  {
  }

  /** The symbols before the overrides and after them get the same IDs. */
  lemma SameIds(hash: string -> string, numbered: Inventory, seen: Candidates, result: Candidates, final: Inventory, i: nat)
    requires Normalization.IsInjective(hash) && i < |numbered| && |numbered| == |seen| == |result| == |final|
    requires SameIdentity(seen[i], numbered[i]) && SameIdentity(result[i], final[i]) && Overrides.KeepsProjection(seen[i], result[i])
    requires Normalization.IsTrimmed(numbered[i]) && Symbols.NulFree(numbered[i])
    ensures Normalization.Normalized(hash, final[i]).id == Normalization.Normalized(hash, numbered[i]).id
  {
    hide Symbols.KeyParts, Symbols.NulFree, Normalization.IsTrimmed, Normalization.Normalized, Normalization.IsInjective;
    SameParts(seen[i], numbered[i], final[i]);
    Normalization.IdsTellApart(hash, final[i], numbered[i]);
  }

  lemma SameIdsAreUnique(hash: string -> string, a: Inventory, b: Inventory)
    requires |a| == |b|
    requires forall i :: 0 <= i < |a| ==> Normalization.Normalized(hash, a[i]).id == Normalization.Normalized(hash, b[i]).id
    ensures Normalization.IdsAreUnique(Normalization.NormalizeAll(hash, a)) <==> Normalization.IdsAreUnique(Normalization.NormalizeAll(hash, b))
  {
    hide Normalization.Normalized;
    var x, y := Normalization.NormalizeAll(hash, a), Normalization.NormalizeAll(hash, b);
    assert forall i :: 0 <= i < |a| ==> x[i].id == y[i].id;
  }

  /** With a hash that never collides, the IDs after the numbering and any run of
      overrides are unique exactly when none had taken the identity of a numbered
      symbol before. */
  lemma IdsStayUnique(
      hash: string -> string, before: Inventory, numbered: Inventory, ordinals: seq<nat>, seen: Candidates,
      versions: map<string, string>, overrides: seq<Overrides.Override>, final: Inventory)
    requires Disambiguation.IsDisambiguated(before, numbered, ordinals) && Disambiguation.AreNulFree(before)
    requires Normalization.IsInjective(hash) && forall i :: 0 <= i < |before| ==> Normalization.IsTrimmed(before[i])
    requires SameIdentities(seen, numbered) && SameIdentities(Overrides.ApplyAll(seen, versions, overrides).symbols, final)
    ensures Normalization.IdsAreUnique(Normalization.NormalizeAll(hash, final))
       <==> !exists i: nat, k: nat, m: nat :: Disambiguation.TakesMarked(before, i, k, m)
  {
    var result := Overrides.ApplyAll(seen, versions, overrides).symbols;
    Overrides.RunKeepsProjections(seen, versions, overrides);
    Normalization.NumberedNeverCollide(hash, before, numbered, ordinals);
    assert |before| == |numbered|;
    hide Disambiguation.IsDisambiguated, Disambiguation.TakesMarked, Disambiguation.AreNulFree, Overrides.ApplyAll, Overrides.KeepsProjection,
         SameIdentity, Symbols.NulFree, Normalization.IsTrimmed, Normalization.Normalized, Normalization.NormalizeAll, Normalization.IdsAreUnique,
         Normalization.IsInjective;
    forall i | 0 <= i < |numbered|
      ensures Normalization.Normalized(hash, final[i]).id == Normalization.Normalized(hash, numbered[i]).id
    {
      Normalization.StaysPlain(before, numbered, ordinals, i);
      SameIds(hash, numbered, seen, result, final, i);
    }
    SameIdsAreUnique(hash, final, numbered);
  }

  // ---- the report ----

  lemma NormalizedIsComplete(hash: string -> string, s: Symbols.Symbol)
    ensures Normalization.IsValid(Normalization.Normalized(hash, s)) ==> s.complete
  {
  }

  lemma {:induction false} SelectedAreSome(symbols: seq<Coverage.Symbol>, official: bool, counted: bool, s: Coverage.Symbol)
    requires s in Coverage.Select(symbols, official, counted)
    ensures s in symbols
  {
    var n := |symbols| - 1;
    assert symbols == symbols[..n] + [symbols[n]];
    if s in Coverage.Select(symbols[..n], official, counted) {
      SelectedAreSome(symbols[..n], official, counted, s);
    }
  }

  lemma {:induction false} AllAccounted(symbols: seq<Coverage.Symbol>)
    requires forall s :: s in symbols ==> IsValidStatus(s.status)
    ensures HowMany(symbols, Coverage.IsAccounted) == |symbols|
  {
    if symbols != [] {
      var n := |symbols| - 1;
      assert forall s :: s in symbols[..n] ==> s in symbols;
      assert symbols[n] in symbols;
      AllAccounted(symbols[..n]);
    }
  }

  lemma StatusesAreValid(hash: string -> string, result: Candidates, final: Inventory, counted: seq<Coverage.Symbol>)
    requires AreFilledIn(result, final) && AreCountedAs(result, counted) && Normalization.Accepted(hash, final)
    ensures forall s :: s in counted ==> IsValidStatus(s.status)
  {
    hide Normalization.Normalized, Normalization.IsValid, Normalization.IdsAreUnique, IsValidStatus;
    forall k | 0 <= k < |final|
      ensures IsValidStatus(result[k].status)
    {
      assert Normalization.IsValid(Normalization.NormalizeAll(hash, final)[k]);
      NormalizedIsComplete(hash, final[k]);
      assert IsFilledIn(result[k], final[k]);
    }
    forall s | s in counted
      ensures IsValidStatus(s.status)
    {
      var i :| 0 <= i < |counted| && counted[i] == s;
      var k :| 0 <= k < |result| && IsCountedAs(result[k], counted[i]);
    }
  }

  /** Whatever was overridden: when the inventory normalises, its report passes
      validation as soon as it names its generator and manifest and there are symbols,
      and it accounts for every symbol. */
  lemma NormalizedInventoriesReport(
      hash: string -> string, seen: Candidates, versions: map<string, string>, overrides: seq<Overrides.Override>, final: Inventory,
      inv: Coverage.Inventory)
    requires AreFilledIn(Overrides.ApplyAll(seen, versions, overrides).symbols, final) && Normalization.Accepted(hash, final)
    requires AreCountedAs(Overrides.ApplyAll(seen, versions, overrides).symbols, inv.symbols)
    requires CoverageWidth.HasInt64Counts(Coverage.ReportOf(inv)) && IsInt64(Sum(Coverage.ReportOf(inv).byArchitecture))
    ensures Coverage.IsConsistent(Coverage.ReportOf(inv), Coverage.Bits64) <==>
      inv.generatorVersion != "" && Coverage.IsHash(inv.manifestHash) && seen != []
    ensures var accounting := Coverage.ReportOf(inv).metrics.accounting; accounting.numerator == accounting.denominator
  {
    Overrides.RunKeepsProjections(seen, versions, overrides);
    StatusesAreValid(hash, Overrides.ApplyAll(seen, versions, overrides).symbols, final, inv.symbols);
    hide AreFilledIn, Overrides.ApplyAll, Overrides.KeepsProjection, Normalization.Accepted, CoverageWidth.HasInt64Counts, IsInt64, Sum,
         Coverage.IsConsistent, Coverage.IsHash;
    CoverageWidth.BuiltReportsPass(inv);
    assert |inv.symbols| == |seen|;
    SelectionIsValid(inv);
  }

  lemma SelectionIsValid(inv: Coverage.Inventory)
    requires forall s :: s in inv.symbols ==> IsValidStatus(s.status)
    ensures Coverage.AllKnown(Coverage.Select(inv.symbols, Coverage.HasOfficial(inv.symbols), true))
    ensures var accounting := Coverage.ReportOf(inv).metrics.accounting; accounting.numerator == accounting.denominator
  {
    var official := Coverage.HasOfficial(inv.symbols);
    var symbols := Coverage.Select(inv.symbols, official, true);
    forall s | s in symbols
      ensures IsValidStatus(s.status)
    {
      SelectedAreSome(inv.symbols, official, true, s);
    }
    assert forall i :: 0 <= i < |symbols| ==> symbols[i] in symbols;
    AllAccounted(symbols);
    hide Coverage.Select, Coverage.HasOfficial, HowMany, CountBy, Coverage.Round, Coverage.CountArchitectures, Coverage.Skipped;
  }
}
