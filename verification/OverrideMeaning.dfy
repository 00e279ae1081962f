/** What an override that was applied must have met, and what it did.
 */
module OverrideMeaning {
  import opened Options
  import opened JsonDiff
  import opened Statuses
  import opened Overrides
  import O = OverrideVersions
  import VersionOrder
  import VersionTexts
  import Strings

  /** The version is between the bounds, as their texts tell. */
  ghost predicate IsInRange(r: O.Range, version: string) {
    && VersionOrder.IsOverride(VersionTexts.TextOf(version))
    && VersionOrder.IsOverride(VersionTexts.TextOf(r.minInclusive)) && VersionOrder.IsOverride(VersionTexts.TextOf(r.maxInclusive))
    && !VersionOrder.Below(VersionOrder.OverrideLabel, VersionTexts.TextOf(version), VersionTexts.TextOf(r.minInclusive))
    && !VersionOrder.Below(VersionOrder.OverrideLabel, VersionTexts.TextOf(r.maxInclusive), VersionTexts.TextOf(version))
  }

  lemma RangeIsRead(r: O.Range, version: string)
    ensures O.Contains(r, version) == Some(true) <==> IsInRange(r, version)
  {
    VersionOrder.OverrideReads(version);
    VersionOrder.OverrideReads(r.minInclusive);
    VersionOrder.OverrideReads(r.maxInclusive);
    hide O.Parse, VersionTexts.TextOf, VersionOrder.IsOverride, VersionOrder.Below, VersionOrder.HoldsNumbers, O.Compare;
    if O.Parse(version).Some? && O.Parse(r.minInclusive).Some? && O.Parse(r.maxInclusive).Some? {
      VersionOrder.RangeMeans(r, version);
    }
  }

  /** The symbol still has what the override was written against. */
  predicate Matches(s: Symbol, n: Name, json: Json) {
    match n
    case NativeName => json == Text(s.identity.nativeName)
    case CanonicalSignature => json == Text(s.identity.signature)
    case OtherName(_) => false
    case _ => n in s.fields && json == s.fields[n]
  }

  predicate MayBeReplaced(n: Name) {
    n in {GoName, TypeField, FunctionField, ConstantField, GuidField, Availability, Ownership, Attributes}
  }

  /** The override is for the symbol's source, at a version in range; it is not stale; and
      it replaces what may be replaced by something that can be read, but not the function
      of a symbol that is called. */
  ghost predicate MayApply(s: Symbol, versions: map<string, string>, o: Override) {
    && o.sourceId == s.identity.sourceId && o.sourceId in versions && IsInRange(o.range, versions[o.sourceId])
    && (forall n :: n in o.before ==> Matches(s, n, o.before[n]))
    && (forall n :: n in o.after ==> MayBeReplaced(n) && o.after[n].readable)
    && (FunctionField in o.after ==> s.status !in {GeneratedPureGo, GeneratedAssembly, GeneratedCgoBridge})
    && IsComplete(Replaced(s, o))
  }

  predicate IsComplete(s: Symbol) {
    && s.identity.sourceId != "" && s.identity.kind != "" && s.identity.nativeName != "" && s.identity.architecture != ""
    && s.identity.abiProfile != "" && s.statusReason != "" && s.backend != "" && !s.status.Unclassified? && !s.status.OtherStatus?
  }

  lemma MatchesWhatIsShown(s: Symbol, n: Name, json: Json)
    ensures Matches(s, n, json) <==> MayBeCompared(n) && Shown(s, n) == Some(json)
  {
  }

  lemma ReplaceableNames(n: Name)
    ensures MayBeReplaced(n) <==> MayBeChanged(n)
  {
  }

  lemma CompleteIsValid(s: Symbol)
    ensures IsComplete(s) <==> IsValid(s)
  {
  }

  /** Nothing is refused: the tests one by one. */
  ghost predicate PassesAll(s: Symbol, versions: map<string, string>, o: Override) {
    && s.identity.sourceId == o.sourceId && o.sourceId in versions && O.Contains(o.range, versions[o.sourceId]) == Some(true)
    && (forall n :: n in o.before ==> MayBeCompared(n)) && (forall n :: n in o.after ==> MayBeChanged(n))
    && !(FunctionField in o.after && IsCallable(s.status)) && (forall n :: n in o.before ==> Shown(s, n) == Some(o.before[n]))
    && (forall n :: n in o.after ==> o.after[n].readable) && IsValid(Replaced(s, o))
  }

  lemma NothingRefused(s: Symbol, versions: map<string, string>, o: Override)
    ensures Refused(s, versions, o) == None <==> PassesAll(s, versions, o)
  {
    hide O.Contains, Replaced, IsValid, MayBeChanged, MayBeCompared, Shown, IsCallable;
  }

  lemma NamesMean(s: Symbol, o: Override)
    ensures (forall n :: n in o.before ==> Matches(s, n, o.before[n]))
      <==> (forall n :: n in o.before ==> MayBeCompared(n)) && forall n :: n in o.before ==> Shown(s, n) == Some(o.before[n])
    ensures (forall n :: n in o.after ==> MayBeReplaced(n)) <==> forall n :: n in o.after ==> MayBeChanged(n)
  {
    forall n
      ensures n in o.before ==> (Matches(s, n, o.before[n]) <==> MayBeCompared(n) && Shown(s, n) == Some(o.before[n]))
      ensures MayBeReplaced(n) <==> MayBeChanged(n)
    {
      if n in o.before {
        MatchesWhatIsShown(s, n, o.before[n]);
      }
      ReplaceableNames(n);
    }
    hide Matches, MayBeReplaced, MayBeChanged, MayBeCompared, Shown;
  }

  /** An override is applied exactly then. */
  lemma AppliedExactly(s: Symbol, versions: map<string, string>, o: Override)
    ensures Refused(s, versions, o) == None <==> MayApply(s, versions, o)
  {
    NothingRefused(s, versions, o);
    if o.sourceId in versions {
      RangeIsRead(o.range, versions[o.sourceId]);
    }
    hide O.Contains, IsInRange, Replaced, IsComplete, IsValid, Matches, MayBeReplaced, MayBeChanged, MayBeCompared, Shown, Refused, IsCallable;
    CompleteIsValid(Replaced(s, o));
    Callables(s.status);
    NamesMean(s, o);
  }

  lemma Callables(s: Status)
    ensures IsCallable(s) <==> s in {GeneratedPureGo, GeneratedAssembly, GeneratedCgoBridge}
  {
  }

  /** What an applied override did: it replaced the fields it names, marked the symbol, and
      noted itself in the reason, behind one semicolon. */
  ghost predicate IsReplaced(s: Symbol, t: Symbol, o: Override) {
    && t == s.(fields := t.fields, function_ := t.function_, manualOverride := true, statusReason := t.statusReason)
    && (forall n :: n in t.fields <==> n in s.fields || n in o.after)
    && (forall n :: n in t.fields ==> t.fields[n] == if n in o.after then o.after[n].json else s.fields[n])
    && t.function_ == (if FunctionField in o.after then o.after[FunctionField].function_ else s.function_)
    && (exists reason: string :: (s.statusReason == reason + ";" || (s.statusReason == reason && !EndsInSemicolon(reason)))
          && t.statusReason == reason + (";typed-override:" + o.id))
  }

  predicate EndsInSemicolon(s: string) {
    s != "" && s[|s| - 1] == ';'
  }

  lemma ReplacedMeans(s: Symbol, o: Override)
    ensures IsReplaced(s, Replaced(s, o), o)
  {
    var reason := TrimSuffix(s.statusReason, ";");
    SuffixTrimmed(s.statusReason);
    assert Replaced(s, o).statusReason == reason + (";typed-override:" + o.id);
    hide TrimSuffix;
  }

  lemma SuffixTrimmed(s: string)
    ensures var reason := TrimSuffix(s, ";");
      s == reason + ";" || (s == reason && !EndsInSemicolon(reason))
  {
    if Strings.HasSuffix(s, ";") {
      assert s == s[..|s| - 1] + s[|s| - 1..];
    } else if s != "" {
      assert s[|s| - 1..] == [s[|s| - 1]];
    }
  }

  /** k is the last symbol with this ID. */
  predicate IsLastWith(symbols: seq<Symbol>, id: string, k: nat) {
    k < |symbols| && symbols[k].id == id && forall i :: k < i < |symbols| ==> symbols[i].id != id
  }

  lemma {:induction false} LastIsTarget(symbols: seq<Symbol>, id: string)
    ensures forall k: nat :: IsLastWith(symbols, id, k) <==> Target(symbols, id) == Some(k)
  {
    if symbols != [] {
      var n := |symbols| - 1;
      LastIsTarget(symbols[..n], id);
      if symbols[n].id != id {
        forall k: nat
          ensures IsLastWith(symbols, id, k) <==> IsLastWith(symbols[..n], id, k)
        {
        }
      }
    }
  }

  /** In its turn, the override may apply to the last symbol with its ID, and replaces it. */
  ghost predicate Applies(before: seq<Symbol>, versions: map<string, string>, o: Override, after: seq<Symbol>) {
    exists k: nat :: IsLastWith(before, o.symbolId, k) && AppliesAt(before, versions, o, k, after)
  }

  ghost predicate AppliesAt(before: seq<Symbol>, versions: map<string, string>, o: Override, k: nat, after: seq<Symbol>) {
    && k < |before| == |after| && MayApply(before[k], versions, o) && IsReplaced(before[k], after[k], o)
    && forall i :: 0 <= i < |before| && i != k ==> after[i] == before[i]
  }

  /** There is no symbol with the ID, or the override may not apply to the last. */
  ghost predicate MayNotApply(before: seq<Symbol>, versions: map<string, string>, o: Override) {
    forall k: nat :: IsLastWith(before, o.symbolId, k) ==> !MayApply(before[k], versions, o)
  }

  lemma AppliesToTarget(before: seq<Symbol>, versions: map<string, string>, o: Override, k: nat)
    requires IsLastWith(before, o.symbolId, k) && Refused(before[k], versions, o) == None
    ensures Applies(before, versions, o, before[k := Replaced(before[k], o)])
  {
    AppliedExactly(before[k], versions, o);
    ReplacedMeans(before[k], o);
    hide Refused, MayApply, Replaced, IsReplaced;
    assert AppliesAt(before, versions, o, k, before[k := Replaced(before[k], o)]);
  }

  lemma OneApplies(before: seq<Symbol>, versions: map<string, string>, o: Override)
    ensures var r := ApplyOne(before, versions, o);
      && (r.Done? ==> Applies(before, versions, o, r.symbols))
      && (r.Failed? ==> r.symbols == before && MayNotApply(before, versions, o))
  {
    LastIsTarget(before, o.symbolId);
    hide Refused, MayApply, Replaced, Target, IsLastWith, Applies;
    forall k: nat | IsLastWith(before, o.symbolId, k)
      ensures k < |before| && Target(before, o.symbolId) == Some(k)
      ensures Refused(before[k], versions, o) == None <==> MayApply(before[k], versions, o)
      ensures MayApply(before[k], versions, o) ==> Applies(before, versions, o, before[k := Replaced(before[k], o)])
    {
      TargetIs(before, o.symbolId);
      AppliedExactly(before[k], versions, o);
      if MayApply(before[k], versions, o) {
        AppliesToTarget(before, versions, o, k);
      }
    }
    var target := Target(before, o.symbolId);
    if target.Some? {
      assert IsLastWith(before, o.symbolId, target.value);
    }
  }

  /** How far a run has come before the override at i. */
  function State(symbols: seq<Symbol>, versions: map<string, string>, overrides: seq<Override>, i: nat): Outcome
    requires i <= |overrides|
  {
    ApplyAll(symbols, versions, overrides[..i])
  }

  lemma NextState(symbols: seq<Symbol>, versions: map<string, string>, overrides: seq<Override>, i: nat)
    requires i < |overrides|
    ensures var s := State(symbols, versions, overrides, i);
      State(symbols, versions, overrides, i + 1) == if s.Failed? then s else ApplyOne(s.symbols, versions, overrides[i])
  {
    assert overrides[..i + 1][..i] == overrides[..i];
    hide ApplyOne;
  }

  lemma FirstAndLastState(symbols: seq<Symbol>, versions: map<string, string>, overrides: seq<Override>)
    ensures State(symbols, versions, overrides, 0) == Done(symbols)
    ensures State(symbols, versions, overrides, |overrides|) == ApplyAll(symbols, versions, overrides)
  {
    assert overrides[..|overrides|] == overrides && overrides[..0] == [];
    hide ApplyOne;
  }

  /** A run that is done has applied every override in its turn. */
  lemma DoneMeansApplied(symbols: seq<Symbol>, versions: map<string, string>, overrides: seq<Override>, i: nat)
    requires ApplyAll(symbols, versions, overrides).Done? && i < |overrides|
    ensures var s, t := State(symbols, versions, overrides, i), State(symbols, versions, overrides, i + 1);
      s.Done? && t.Done? && Applies(s.symbols, versions, overrides[i], t.symbols)
  {
    hide ApplyOne, Applies;
    NextState(symbols, versions, overrides, i);
    if State(symbols, versions, overrides, i + 1).Failed? {
      FailureStops(symbols, versions, overrides, i + 1);
    }
    OneApplies(State(symbols, versions, overrides, i).symbols, versions, overrides[i]);
  }

  /** One that failed did so at the first that may not apply, and left what the ones before
      had made. */
  lemma {:induction false} FailedMeansRefused(symbols: seq<Symbol>, versions: map<string, string>, overrides: seq<Override>, n: nat) returns (i: nat)
    requires n <= |overrides| && State(symbols, versions, overrides, n).Failed?
    ensures i < n && State(symbols, versions, overrides, i).Done?
    ensures State(symbols, versions, overrides, n).symbols == State(symbols, versions, overrides, i).symbols
    ensures MayNotApply(State(symbols, versions, overrides, i).symbols, versions, overrides[i])
  {
    FirstAndLastState(symbols, versions, overrides);
    hide ApplyOne, Applies, MayNotApply, State;
    NextState(symbols, versions, overrides, n - 1);
    var before := State(symbols, versions, overrides, n - 1);
    if before.Failed? {
      i := FailedMeansRefused(symbols, versions, overrides, n - 1);
    } else {
      i := n - 1;
      OneApplies(before.symbols, versions, overrides[i]);
    }
  }
}
