/** Reviewed corrections of the inventory: what they may change, and what no run of
    them can.
 */
module Overrides {
  import opened Options
  import opened JsonDiff
  import opened Statuses
  import OverrideVersions
  import PInvoke
  import Strings

  /** The fields an override can name. */
  datatype Name =
    | NativeName | CanonicalSignature | GoName | TypeField | FunctionField | ConstantField | GuidField | Availability
    | Ownership | Attributes | OtherName(text: string)

  predicate MayBeCompared(n: Name) {
    !n.OtherName?
  }

  predicate MayBeChanged(n: Name) {
    !n.OtherName? && !n.NativeName? && !n.CanonicalSignature?
  }

  /** The parts of a symbol that its ID is made of. */
  datatype Identity = Identity(
    sourceId: string, namespace: string, kind: string, nativeName: string, architecture: string, signature: string,
    genericArity: int, abiProfile: string)

  /** fields holds the JSON of what the symbol has besides; function is read from
      FunctionField. */
  datatype Symbol = Symbol(
    id: string, sourceType: string, identity: Identity, status: Status, statusReason: string, backend: string,
    fields: map<Name, Json>, function_: Option<PInvoke.Function>, manualOverride: bool)

  /** The JSON a replacement field holds, and whether it can be read as that field;
      function is what it is read as, for FunctionField. */
  datatype Replacement = Replacement(json: Json, readable: bool, function_: Option<PInvoke.Function>)

  datatype Override = Override(
    id: string, sourceId: string, range: OverrideVersions.Range, symbolId: string, before: map<Name, Json>, after: map<Name, Replacement>)

  predicate IsCallable(s: Status) {
    s.GeneratedPureGo? || s.GeneratedAssembly? || s.GeneratedCgoBridge?
  }

  /** What the symbol shows for a field. */
  function Shown(s: Symbol, n: Name): Option<Json> {
    if n.NativeName? then Some(Text(s.identity.nativeName))
    else if n.CanonicalSignature? then Some(Text(s.identity.signature))
    else if n in s.fields then Some(s.fields[n])
    else None
  }

  predicate IsValid(s: Symbol) {
    && s.identity.sourceId != "" && s.identity.kind != "" && s.identity.nativeName != "" && s.identity.architecture != ""
    && s.identity.abiProfile != "" && IsValidStatus(s.status) && s.statusReason != "" && s.backend != ""
  }

  function TrimSuffix(s: string, suffix: string): string {
    if Strings.HasSuffix(s, suffix) then s[..|s| - |suffix|] else s
  }

  function Replaced(s: Symbol, o: Override): Symbol {
    s.(fields := s.fields + map n | n in o.after :: o.after[n].json,
       function_ := if FunctionField in o.after then o.after[FunctionField].function_ else s.function_,
       manualOverride := true,
       statusReason := TrimSuffix(s.statusReason, ";") + ";typed-override:" + o.id)
  }

  datatype Failure =
    | NoTarget | SourceDiffers | NoVersion | BadVersion | OutOfRange | BadBefore | BadAfter | ChangesCallable | Stale
    | Unreadable | Invalid

  /** Why the override does not apply to the symbol, if it does not. */
  function Refused(s: Symbol, versions: map<string, string>, o: Override): Option<Failure> {
    if s.identity.sourceId != o.sourceId then Some(SourceDiffers)
    else if o.sourceId !in versions then Some(NoVersion)
    else
      var inside := OverrideVersions.Contains(o.range, versions[o.sourceId]);
      if inside == None then Some(BadVersion)
      else if !inside.value then Some(OutOfRange)
      else if exists n :: n in o.before && !MayBeCompared(n) then Some(BadBefore)
      else if exists n :: n in o.after && !MayBeChanged(n) then Some(BadAfter)
      else if FunctionField in o.after && IsCallable(s.status) then Some(ChangesCallable)
      else if exists n :: n in o.before && Shown(s, n) != Some(o.before[n]) then Some(Stale)
      else if exists n :: n in o.after && !o.after[n].readable then Some(Unreadable)
      else if !IsValid(Replaced(s, o)) then Some(Invalid)
      else None
  }

  // ---- what no override changes ----

  /** The identity, the status and the backend are kept; so is the function of a
      symbol that is called. */
  predicate KeepsProjection(before: Symbol, after: Symbol) {
    && after.id == before.id && after.identity == before.identity && after.sourceType == before.sourceType
    && after.status == before.status && after.backend == before.backend
    && (IsCallable(before.status) ==> after.function_ == before.function_ && Shown(after, FunctionField) == Shown(before, FunctionField))
  }

  lemma AppliedKeepsProjection(s: Symbol, versions: map<string, string>, o: Override)
    requires Refused(s, versions, o) == None
    ensures KeepsProjection(s, Replaced(s, o))
  {
    hide OverrideVersions.Contains, IsValid, TrimSuffix;
  }

  lemma KeepsProjectionTwice(a: Symbol, b: Symbol, c: Symbol)
    requires KeepsProjection(a, b) && KeepsProjection(b, c)
    ensures KeepsProjection(a, c)
  {
  }

  /** Fields the override does not name are kept, and those it names are replaced. */
  lemma OnlyNamedFieldsChange(s: Symbol, versions: map<string, string>, o: Override, n: Name)
    requires Refused(s, versions, o) == None
    ensures Shown(Replaced(s, o), n) == if n in o.after then Some(o.after[n].json) else Shown(s, n)
    ensures n in o.after ==> MayBeChanged(n)
  {
    hide OverrideVersions.Contains, IsValid, TrimSuffix;
  }

  // ---- a run ----

  /** The last symbol with the ID. */
  function Target(symbols: seq<Symbol>, id: string): Option<nat> {
    if symbols == [] then None
    else if symbols[|symbols| - 1].id == id then Some(|symbols| - 1)
    else Target(symbols[..|symbols| - 1], id)
  }

  lemma {:induction false} TargetIs(symbols: seq<Symbol>, id: string)
    ensures Target(symbols, id).Some? ==> Target(symbols, id).value < |symbols| && symbols[Target(symbols, id).value].id == id
  {
    if symbols != [] {
      TargetIs(symbols[..|symbols| - 1], id);
    }
  }

  datatype Outcome = Done(symbols: seq<Symbol>) | Failed(symbols: seq<Symbol>, failure: Failure)

  /** One override after what the ones before it left; the first failure stops. */
  function ApplyAll(symbols: seq<Symbol>, versions: map<string, string>, overrides: seq<Override>): Outcome {
    if overrides == [] then Done(symbols)
    else
      var before, o := ApplyAll(symbols, versions, overrides[..|overrides| - 1]), overrides[|overrides| - 1];
      if before.Failed? then before else ApplyOne(before.symbols, versions, o)
  }

  function ApplyOne(symbols: seq<Symbol>, versions: map<string, string>, o: Override): Outcome {
    var target := Target(symbols, o.symbolId);
    if target == None then Failed(symbols, NoTarget)
    else
      TargetIs(symbols, o.symbolId);
      var s := symbols[target.value];
      var failure := Refused(s, versions, o);
      if failure.Some? then Failed(symbols, failure.value) else Done(symbols[target.value := Replaced(s, o)])
  }

  lemma {:induction false} FailureStops(symbols: seq<Symbol>, versions: map<string, string>, overrides: seq<Override>, i: nat)
    requires i <= |overrides| && ApplyAll(symbols, versions, overrides[..i]).Failed?
    ensures ApplyAll(symbols, versions, overrides) == ApplyAll(symbols, versions, overrides[..i])
  {
    if i == |overrides| {
      assert overrides[..i] == overrides;
    } else {
      assert overrides[..|overrides| - 1][..i] == overrides[..i];
      FailureStops(symbols, versions, overrides[..|overrides| - 1], i);
    }
  }

  /** Whatever is overridden, and however far a run gets, every symbol keeps its
      identity, its status and, if it is called, its function. */
  lemma {:induction false} RunKeepsProjections(symbols: seq<Symbol>, versions: map<string, string>, overrides: seq<Override>)
    ensures var after := ApplyAll(symbols, versions, overrides).symbols;
      |after| == |symbols| && forall i :: 0 <= i < |symbols| ==> KeepsProjection(symbols[i], after[i])
  {
    hide KeepsProjection, Refused, Replaced;
    if overrides == [] {
      forall i | 0 <= i < |symbols|
        ensures KeepsProjection(symbols[i], symbols[i])
      {
        KeepsItself(symbols[i]);
      }
    } else {
      var before, o := ApplyAll(symbols, versions, overrides[..|overrides| - 1]), overrides[|overrides| - 1];
      RunKeepsProjections(symbols, versions, overrides[..|overrides| - 1]);
      var after := ApplyAll(symbols, versions, overrides);
      if before.Done? && after.Done? {
        var k := Target(before.symbols, o.symbolId).value;
        TargetIs(before.symbols, o.symbolId);
        AppliedKeepsProjection(before.symbols[k], versions, o);
        KeepsProjectionTwice(symbols[k], before.symbols[k], after.symbols[k]);
      }
    }
  }

  lemma KeepsItself(s: Symbol)
    ensures KeepsProjection(s, s)
  {
  }

  /** Applies the overrides in place, in their order. */
  method ApplyOverrides(symbols: array<Symbol>, versions: map<string, string>, overrides: seq<Override>) returns (failure: Option<Failure>)
    modifies symbols
    ensures symbols[..] == ApplyAll(old(symbols[..]), versions, overrides).symbols
    ensures failure == match ApplyAll(old(symbols[..]), versions, overrides) { case Done(_) => None case Failed(_, f) => Some(f) }
  {
    hide Refused, Replaced, Target;
    ghost var before := symbols[..];
    for i := 0 to |overrides|
      invariant ApplyAll(before, versions, overrides[..i]) == Done(symbols[..])
    {
      var o := overrides[i];
      assert overrides[..i + 1][..i] == overrides[..i];
      var k := FindTarget(symbols, o.symbolId);
      ghost var next := ApplyOne(symbols[..], versions, o);
      assert ApplyAll(before, versions, overrides[..i + 1]) == next;
      if next.Failed? {
        FailureStops(before, versions, overrides, i + 1);
      }
      if k == None {
        return Some(NoTarget);
      }
      var refused := Refused(symbols[k.value], versions, o);
      if refused.Some? {
        return refused;
      }
      symbols[k.value] := Replaced(symbols[k.value], o);
    }
    assert overrides[..|overrides|] == overrides;
    failure := None;
  }

  /** A map from ID to index, made in one pass, holds the last. */
  method FindTarget(symbols: array<Symbol>, id: string) returns (k: Option<nat>)
    ensures k == Target(symbols[..], id) && (k.Some? ==> k.value < symbols.Length)
  {
    k := None;
    for i := 0 to symbols.Length
      invariant k == Target(symbols[..i], id) && (k.Some? ==> k.value < i)
    {
      assert symbols[..i + 1][..i] == symbols[..i];
      if symbols[i].id == id {
        k := Some(i);
      }
    }
    assert symbols[..symbols.Length] == symbols[..];
  }

  // ---- what is emitted in the end ----

  const FIXTURE_SOURCE: string := "project-fixture"

  /** Plain calls are emitted for functions with this status. */
  predicate IsEmitted(s: Symbol) {
    s.identity.kind == "function" && s.status.GeneratedPureGo? && s.function_.Some?
  }

  /** A symbol of the official metadata as ingestion makes it. */
  ghost predicate FromMetadata(s: Symbol) {
    s.sourceType != FIXTURE_SOURCE && s.function_.Some? ==>
      exists m: PInvoke.Method :: m.function_ == s.function_.value && PInvoke.Classify(m) == s.status
  }

  /** The call is plain: no variable arguments, the platform's or the standard
      convention, a result that is one word or nothing, and every parameter passed
      as one converted word. */
  ghost predicate IsWordCall(f: PInvoke.Function) {
    && !f.varArgs && (f.callingConvention == "platform" || f.callingConvention == "stdcall")
    && f.entryPoint != "" && PInvoke.IsSafeDll(f.dll)
    && (PInvoke.IsOneWord(f.result) || PInvoke.IsVoid(f.result))
    && |PInvoke.Arguments(f.parameters)| == |f.parameters|
    && forall k :: 0 <= k < |f.parameters| ==>
         PInvoke.IsOneWord(f.parameters[k].valueType) && PInvoke.Arguments(f.parameters)[k] == PInvoke.Converted(f.parameters[k].name)
  }

  lemma GeneratedCallIsWordCall(m: PInvoke.Method)
    requires PInvoke.Classify(m).GeneratedPureGo?
    ensures IsWordCall(m.function_)
  {
    assert |PInvoke.Arguments(m.function_.parameters)| == |m.function_.parameters|;
    hide PInvoke.Classify, PInvoke.IsOneWord, PInvoke.IsVoid, PInvoke.Arguments, PInvoke.IsSafeDll;
    PInvoke.GeneratedExactly(m);
    forall k | 0 <= k < |m.function_.parameters|
      ensures PInvoke.Arguments(m.function_.parameters)[k] == PInvoke.Converted(m.function_.parameters[k].name)
    {
      PInvoke.GeneratedCallsAreWords(m, k);
    }
  }

  /** Whatever overrides succeed, the call of an official function that is emitted is
      plain, in all its values. */
  lemma EmittedOfficialCallsAreWords(symbols: seq<Symbol>, versions: map<string, string>, overrides: seq<Override>, i: nat)
    requires i < |symbols| && FromMetadata(symbols[i]) && symbols[i].sourceType != FIXTURE_SOURCE
    requires var after := ApplyAll(symbols, versions, overrides).symbols;
      i < |after| && IsEmitted(after[i])
    ensures IsWordCall(ApplyAll(symbols, versions, overrides).symbols[i].function_.value)
  {
    RunKeepsProjections(symbols, versions, overrides);
    var s, t := symbols[i], ApplyAll(symbols, versions, overrides).symbols[i];
    assert KeepsProjection(s, t);
    var m: PInvoke.Method :| m.function_ == s.function_.value && PInvoke.Classify(m) == s.status;
    hide ApplyAll, PInvoke.Classify, IsWordCall;
    GeneratedCallIsWordCall(m);
  }
}
