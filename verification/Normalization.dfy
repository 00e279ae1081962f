/** Normalising the inventory: trimmed names, stable IDs, one order. The hash behind
    the IDs is a parameter.
 */
module Normalization {
  import opened Orders
  import opened Sequences
  import opened Symbols
  import Strings
  import SeqSort
  import Disambiguation
  import NormalForms

  // ---- one symbol ----

  function QualifiedName(s: Symbol): string {
    if s.namespace == "" then s.nativeName else s.namespace + "." + s.nativeName
  }

  function IdText(s: Symbol): string {
    KeyText(s) + [NUL]
  }

  /** Trimmed, with a signature, and with its ID. */
  function Identified(hash: string -> string, s: Symbol): Symbol {
    var t := s.(namespace := Strings.Trim(s.namespace), nativeName := Strings.Trim(s.nativeName));
    var u := if t.signature == "" then t.(signature := t.kind + " " + QualifiedName(t)) else t;
    u.(id := hash(IdText(u)))
  }

  function Normalized(hash: string -> string, s: Symbol): Symbol {
    var t := Identified(hash, s);
    t.(provenance := SeqSort.Sort(CompareProvenance, t.provenance))
  }

  predicate IsValid(s: Symbol) {
    s.sourceId != "" && s.kind != "" && s.nativeName != "" && s.architecture != "" && s.abiProfile != "" && s.complete
  }

  // ---- the orders ----

  function CompareProvenance(a: Provenance, b: Provenance): int {
    if a.sourceId != b.sourceId then Strings.Compare(a.sourceId, b.sourceId)
    else if a.inputFile != b.inputFile then Strings.Compare(a.inputFile, b.inputFile)
    else if a.table != b.table then Strings.Compare(a.table, b.table)
    else CompareInts(a.row, b.row)
  }

  function CompareIds(a: Symbol, b: Symbol): int {
    Strings.Compare(a.id, b.id)
  }

  /** a's text is below b's or the same, and b's below c's or the same. */
  lemma ComparedTexts(a: string, b: string, c: string)
    ensures Strings.Compare(a, b) == -Strings.Compare(b, a)
    ensures Strings.Compare(a, b) == 0 <==> a == b
    ensures Strings.Compare(a, b) <= 0 && Strings.Compare(b, c) <= 0 ==> Strings.Compare(a, c) <= 0
    ensures Strings.Compare(a, b) < 0 && Strings.Compare(b, c) < 0 ==> Strings.Compare(a, c) < 0
  {
    Strings.CompareIsAntisymmetric(a, b);
    Strings.CompareIsZero(a, b);
    if Strings.Compare(a, b) <= 0 && Strings.Compare(b, c) <= 0 {
      Strings.CompareIsTransitive(a, b, c);
    }
  }

  lemma ProvenanceIsPreordered()
    ensures IsPreorder(CompareProvenance)
  {
    hide Strings.Compare;
    forall a, b
      ensures CompareProvenance(a, b) == -CompareProvenance(b, a)
    {
      ComparedTexts(a.sourceId, b.sourceId, "");
      ComparedTexts(a.inputFile, b.inputFile, "");
      ComparedTexts(a.table, b.table, "");
    }
    forall a, b, c | CompareProvenance(a, b) <= 0 && CompareProvenance(b, c) <= 0
      ensures CompareProvenance(a, c) <= 0
    {
      ProvenanceTransitive(a, b, c);
    }
  }

  lemma ProvenanceTransitive(a: Provenance, b: Provenance, c: Provenance)
    requires CompareProvenance(a, b) <= 0 && CompareProvenance(b, c) <= 0
    ensures CompareProvenance(a, c) <= 0
  {
    hide Strings.Compare;
    ComparedTexts(a.sourceId, b.sourceId, c.sourceId);
    ComparedTexts(b.sourceId, c.sourceId, a.sourceId);
    ComparedTexts(a.inputFile, b.inputFile, c.inputFile);
    ComparedTexts(b.inputFile, c.inputFile, a.inputFile);
    ComparedTexts(a.table, b.table, c.table);
    ComparedTexts(b.table, c.table, a.table);
    ComparedTexts(a.sourceId, c.sourceId, "");
    ComparedTexts(a.inputFile, c.inputFile, "");
    ComparedTexts(a.table, c.table, "");
  }

  lemma IdsArePreordered()
    ensures IsPreorder(CompareIds)
  {
    forall a, b
      ensures CompareIds(a, b) == -CompareIds(b, a)
    {
      Strings.CompareIsAntisymmetric(a.id, b.id);
    }
    forall a, b, c | CompareIds(a, b) <= 0 && CompareIds(b, c) <= 0
      ensures CompareIds(a, c) <= 0
    {
      Strings.CompareIsTransitive(a.id, b.id, c.id);
    }
  }

  // ---- the whole inventory ----

  function NormalizeAll(hash: string -> string, symbols: seq<Symbol>): (r: seq<Symbol>)
    ensures |r| == |symbols|
  {
    seq(|symbols|, i requires 0 <= i < |symbols| => Normalized(hash, symbols[i]))
  }

  predicate AllValid(symbols: seq<Symbol>) {
    forall i :: 0 <= i < |symbols| ==> IsValid(symbols[i])
  }

  predicate IdsAreUnique(symbols: seq<Symbol>) {
    forall i, j :: 0 <= i < j < |symbols| ==> symbols[i].id != symbols[j].id
  }

  /** Normalisation succeeds. */
  predicate Accepted(hash: string -> string, symbols: seq<Symbol>) {
    AllValid(NormalizeAll(hash, symbols)) && IdsAreUnique(NormalizeAll(hash, symbols))
  }

  function Result(hash: string -> string, symbols: seq<Symbol>): seq<Symbol> {
    SeqSort.Sort(CompareIds, NormalizeAll(hash, symbols))
  }

  // ---- idempotence ----

  lemma {:induction false} TrimLeftStops(s: string)
    ensures Strings.TrimLeft(s) == "" || !Strings.IsSpace(Strings.TrimLeft(s)[0])
  {
    if s != "" && Strings.IsSpace(s[0]) {
      TrimLeftStops(s[1..]);
    }
  }

  lemma {:induction false} TrimRightStops(s: string)
    ensures Strings.TrimRight(s) <= s
    ensures Strings.TrimRight(s) == "" || !Strings.IsSpace(Strings.TrimRight(s)[|Strings.TrimRight(s)| - 1])
  {
    if s != "" && Strings.IsSpace(s[|s| - 1]) {
      TrimRightStops(s[..|s| - 1]);
    }
  }

  lemma TrimIsIdempotent(s: string)
    ensures Strings.Trim(Strings.Trim(s)) == Strings.Trim(s)
  {
    TrimLeftStops(s);
    TrimRightStops(Strings.TrimLeft(s));
    hide Strings.IsSpace;
    var t := Strings.Trim(s);
    assert t == "" || !Strings.IsSpace(t[0]);
  }

  lemma NormalizedTwice(hash: string -> string, s: Symbol)
    ensures Normalized(hash, Normalized(hash, s)) == Normalized(hash, s)
  {
    TrimIsIdempotent(s.namespace);
    TrimIsIdempotent(s.nativeName);
    ProvenanceIsPreordered();
    SeqSort.SortSorts(CompareProvenance, s.provenance);
    SeqSort.SortOfSorted(CompareProvenance, SeqSort.Sort(CompareProvenance, s.provenance));
    hide Strings.Trim, QualifiedName, SeqSort.Sort, CompareProvenance, SeqSort.IsSorted;
    var t := Normalized(hash, s);
    assert t.signature != "";
    assert Identified(hash, t) == t by { SameKey(Identified(hash, s), t); }
  }

  /** The ID depends on the identity alone. */
  lemma SameKey(s: Symbol, t: Symbol)
    requires KeyParts(s) == KeyParts(t)
    ensures IdText(s) == IdText(t)
  {
  }

  lemma UniqueIdsDistinguish(symbols: seq<Symbol>)
    requires IdsAreUnique(symbols)
    ensures SeqSort.IsDistinguishing(CompareIds, symbols)
  {
    forall i, j | 0 <= i < |symbols| && 0 <= j < |symbols| && CompareIds(symbols[i], symbols[j]) == 0
      ensures symbols[i] == symbols[j]
    {
      Strings.CompareIsZero(symbols[i].id, symbols[j].id);
    }
  }

  /** All IDs occur once, told by counting. */
  lemma IdsAreUniqueIn(a: seq<Symbol>, b: seq<Symbol>)
    requires IdsAreUnique(a) && multiset(a) == multiset(b)
    ensures IdsAreUnique(b)
  {
    forall i, j | 0 <= i < j < |b|
      ensures b[i].id != b[j].id
    {
      if b[i].id == b[j].id {
        assert b[i] in multiset(a) && b[j] in multiset(a);
        var x :| 0 <= x < |a| && a[x] == b[i];
        var y :| 0 <= y < |a| && a[y] == b[j];
        assert x == y;
        OnceIn(a, x);
        TwiceIn(b, i, j);
      }
    }
  }

  lemma TwiceIn<T>(s: seq<T>, i: nat, j: nat)
    requires i < j < |s| && s[i] == s[j]
    ensures multiset(s)[s[i]] >= 2
  {
    assert s == s[..j] + s[j..];
    assert s[i] in s[..j] && s[j] in s[j..];
    assert multiset(s)[s[i]] == multiset(s[..j])[s[i]] + multiset(s[j..])[s[i]];
  }

  lemma OnceIn(s: seq<Symbol>, x: nat)
    requires IdsAreUnique(s) && x < |s|
    ensures multiset(s)[s[x]] == 1
  {
    assert s == s[..x] + [s[x]] + s[x + 1..];
    assert s[x] !in s[..x] && s[x] !in s[x + 1..];
    assert multiset(s)[s[x]] == multiset(s[..x])[s[x]] + multiset([s[x]])[s[x]] + multiset(s[x + 1..])[s[x]];
  }

  lemma ValidIn(a: seq<Symbol>, b: seq<Symbol>)
    requires AllValid(a) && multiset(a) == multiset(b)
    ensures AllValid(b)
  {
    forall i | 0 <= i < |b|
      ensures IsValid(b[i])
    {
      assert b[i] in multiset(a);
    }
  }

  /** Normalising a normalised inventory changes nothing. */
  lemma NormalizationIsIdempotent(hash: string -> string, symbols: seq<Symbol>)
    requires Accepted(hash, symbols)
    ensures Accepted(hash, Result(hash, symbols)) && Result(hash, Result(hash, symbols)) == Result(hash, symbols)
  {
    hide Normalized, CompareIds, IsValid, SeqSort.Sort;
    var all, r := NormalizeAll(hash, symbols), Result(hash, symbols);
    IdsArePreordered();
    SeqSort.SortSorts(CompareIds, all);
    forall i | 0 <= i < |r|
      ensures Normalized(hash, r[i]) == r[i]
    {
      assert r[i] in multiset(all);
      var k :| 0 <= k < |all| && all[k] == r[i];
      NormalizedTwice(hash, symbols[k]);
    }
    assert NormalizeAll(hash, r) == r;
    ValidIn(all, r);
    IdsAreUniqueIn(all, r);
    SeqSort.SortOfSorted(CompareIds, r);
  }

  lemma NormalizeAllAppend(hash: string -> string, a: seq<Symbol>, b: seq<Symbol>)
    ensures NormalizeAll(hash, a + b) == NormalizeAll(hash, a) + NormalizeAll(hash, b)
  {
    hide Normalized;
  }

  lemma NormalizeAllWithout(hash: string -> string, s: seq<Symbol>, k: nat)
    requires k < |s|
    ensures multiset(s) == multiset(s[..k] + s[k + 1..]) + multiset{s[k]}
    ensures multiset(NormalizeAll(hash, s)) == multiset(NormalizeAll(hash, s[..k] + s[k + 1..])) + multiset{Normalized(hash, s[k])}
  {
    var x, y := s[..k], s[k + 1..];
    assert s == x + ([s[k]] + y);
    NormalizeAllAppend(hash, x, [s[k]] + y);
    NormalizeAllAppend(hash, [s[k]], y);
    NormalizeAllAppend(hash, x, y);
    assert NormalizeAll(hash, [s[k]]) == [Normalized(hash, s[k])];
    hide NormalizeAll, Normalized;
    assert multiset(s) == multiset(x) + (multiset{s[k]} + multiset(y));
  }

  lemma {:induction false} NormalizeAllCounts(hash: string -> string, a: seq<Symbol>, b: seq<Symbol>)
    requires multiset(a) == multiset(b)
    ensures multiset(NormalizeAll(hash, a)) == multiset(NormalizeAll(hash, b))
    decreases |a|
  {
    hide NormalizeAll, Normalized;
    assert |a| == |multiset(a)| && |b| == |multiset(b)|;
    if a == [] {
      assert b == [];
    } else {
      assert a[0] in multiset(b);
      var k :| 0 <= k < |b| && b[k] == a[0];
      var x, y := a[..0] + a[1..], b[..k] + b[k + 1..];
      NormalizeAllWithout(hash, a, 0);
      NormalizeAllWithout(hash, b, k);
      assert multiset(x) == multiset(a) - multiset{a[0]};
      assert multiset(y) == multiset(b) - multiset{b[k]};
      NormalizeAllCounts(hash, x, y);
    }
  }

  /** The order in which symbols are ingested makes no difference. */
  lemma IngestionOrderIsForgotten(hash: string -> string, a: seq<Symbol>, b: seq<Symbol>)
    requires multiset(a) == multiset(b)
    ensures Accepted(hash, a) <==> Accepted(hash, b)
    ensures Accepted(hash, a) ==> Result(hash, a) == Result(hash, b)
  {
    hide NormalizeAll, IsValid;
    NormalizeAllCounts(hash, a, b);
    var x, y := NormalizeAll(hash, a), NormalizeAll(hash, b);
    if Accepted(hash, a) {
      ValidIn(x, y);
      IdsAreUniqueIn(x, y);
      UniqueIdsDistinguish(x);
      IdsArePreordered();
      SeqSort.SortForgetsOrder(CompareIds, x, y);
    }
    if Accepted(hash, b) {
      ValidIn(y, x);
      IdsAreUniqueIn(y, x);
    }
  }

  /** Nor does the order of a symbol's provenance, when its entries differ in what
      they are sorted by. */
  lemma ProvenanceOrderIsForgotten(hash: string -> string, s: Symbol, provenance: seq<Provenance>)
    requires multiset(s.provenance) == multiset(provenance) && SeqSort.IsDistinguishing(CompareProvenance, provenance)
    ensures Normalized(hash, s.(provenance := provenance)) == Normalized(hash, s)
  {
    ProvenanceIsPreordered();
    SeqSort.SortForgetsOrder(CompareProvenance, provenance, s.provenance);
    var t := s.(provenance := provenance);
    hide Strings.Trim, SeqSort.Sort, CompareProvenance, QualifiedName, KeyText;
    SameKey(Identified(hash, t), Identified(hash, s));
  }

  // ---- no collisions ----

  ghost predicate IsInjective(hash: string -> string) {
    forall a, b :: hash(a) == hash(b) ==> a == b
  }

  predicate IsTrimmed(s: Symbol) {
    Strings.Trim(s.namespace) == s.namespace && Strings.Trim(s.nativeName) == s.nativeName && s.signature != ""
  }

  lemma MarkIsTrimmed(s: Symbol, ordinal: nat, count: nat)
    requires IsTrimmed(s) && NulFree(s)
    ensures IsTrimmed(Disambiguation.Mark(s, ordinal, count)) && NulFree(Disambiguation.Mark(s, ordinal, count))
  {
    Disambiguation.MarkerIsNulFree(ordinal);
  }

  lemma IdsTellApart(hash: string -> string, s: Symbol, t: Symbol)
    requires IsInjective(hash) && NulFree(s) && NulFree(t) && IsTrimmed(s) && IsTrimmed(t)
    ensures Normalized(hash, s).id == Normalized(hash, t).id <==> KeyParts(s) == KeyParts(t)
  {
    hide KeyText, Strings.Trim, SeqSort.Sort;
    KeyTextIsInjective(s, t);
    SameKey(Identified(hash, s), s);
    SameKey(Identified(hash, t), t);
    assert IdText(s)[..|IdText(s)| - 1] == KeyText(s) && IdText(t)[..|IdText(t)| - 1] == KeyText(t);
    assert Normalized(hash, s).id == hash(IdText(s)) && Normalized(hash, t).id == hash(IdText(t));
  }

  /** After disambiguation, and with a hash that never collides, every symbol has an ID
      of its own exactly when none had taken the identity of a numbered one before. */
  lemma NumberedNeverCollide(hash: string -> string, before: seq<Symbol>, after: seq<Symbol>, ordinals: seq<nat>)
    requires Disambiguation.IsDisambiguated(before, after, ordinals) && Disambiguation.AreNulFree(before) && IsInjective(hash)
    requires forall i :: 0 <= i < |before| ==> IsTrimmed(before[i])
    ensures IdsAreUnique(NormalizeAll(hash, after)) <==> !exists i: nat, k: nat, m: nat :: Disambiguation.TakesMarked(before, i, k, m)
  {
    assert |after| == |before|;
    Disambiguation.CollisionsExactly(before, after, ordinals);
    hide Disambiguation.IsDisambiguated, Disambiguation.TakesMarked, KeyParts, Normalized, IsTrimmed, NulFree;
    forall i, j | 0 <= i < j < |after|
      ensures Normalized(hash, after[i]).id == Normalized(hash, after[j]).id <==> KeyParts(after[i]) == KeyParts(after[j])
    {
      StaysPlain(before, after, ordinals, i);
      StaysPlain(before, after, ordinals, j);
      IdsTellApart(hash, after[i], after[j]);
    }
    UniqueExactly(hash, after);
  }

  lemma UniqueExactly(hash: string -> string, after: seq<Symbol>)
    requires forall i, j :: 0 <= i < j < |after| ==>
      (Normalized(hash, after[i]).id == Normalized(hash, after[j]).id <==> KeyParts(after[i]) == KeyParts(after[j]))
    ensures IdsAreUnique(NormalizeAll(hash, after)) <==> !exists i: nat, j: nat :: Disambiguation.Collide(after, i, j)
  {
    hide KeyParts, Normalized;
    if i: nat, j: nat :| Disambiguation.Collide(after, i, j) {
      var low, high := if i < j then i else j, if i < j then j else i;
      assert Normalized(hash, after[low]).id == Normalized(hash, after[high]).id;
      assert NormalizeAll(hash, after)[low].id == NormalizeAll(hash, after)[high].id;
    }
    if !IdsAreUnique(NormalizeAll(hash, after)) {
      var x := NormalizeAll(hash, after);
      var i, j :| 0 <= i < j < |x| && x[i].id == x[j].id;
      assert Disambiguation.Collide(after, i, j);
    }
  }

  lemma StaysPlain(before: seq<Symbol>, after: seq<Symbol>, ordinals: seq<nat>, i: nat)
    requires Disambiguation.IsDisambiguated(before, after, ordinals) && Disambiguation.AreNulFree(before) && i < |after|
    requires |before| == |after| ==> IsTrimmed(before[i])
    ensures |before| == |after| && IsTrimmed(after[i]) && NulFree(after[i])
  {
    hide IsTrimmed, NulFree;
    MarkIsTrimmed(before[i], ordinals[i], Disambiguation.GroupSize(before, i));
  }

  // ---- the program's loop ----

  /** The state when symbol k fails: those before it are done, it has its ID. */
  ghost predicate StoppedAt(hash: string -> string, before: seq<Symbol>, after: seq<Symbol>, k: nat) {
    && |after| == |before| && k < |before|
    && (forall i :: 0 <= i < k ==> after[i] == Normalized(hash, before[i]))
    && after[k] == Identified(hash, before[k])
    && (forall i :: k < i < |before| ==> after[i] == before[i])
  }

  ghost predicate HasId(symbols: seq<Symbol>, n: nat, id: string) {
    exists k :: 0 <= k < n && k < |symbols| && symbols[k].id == id
  }

  /** Normalises in place; on failure, tells at which symbol. */
  method Normalize(hash: string -> string, symbols: array<Symbol>) returns (ok: bool, ghost stopped: nat)
    modifies symbols
    ensures ok <==> Accepted(hash, old(symbols[..]))
    ensures ok ==> symbols[..] == Result(hash, old(symbols[..])) && NormalForms.IsNormalInventory(hash, old(symbols[..]), symbols[..])
    ensures ok <==> exists normal :: NormalForms.AreNormalForms(hash, old(symbols[..]), normal)
    ensures !ok ==> StoppedAt(hash, old(symbols[..]), symbols[..], stopped)
  {
    hide Normalized, Identified, IsValid, SeqSort.Sort, CompareIds, NormalForms.IsNormalInventory, NormalForms.AreNormalForms;
    AcceptedExactly(hash, symbols[..]);
    ghost var before := symbols[..];
    ok, stopped := IdentifyAll(hash, symbols);
    if ok {
      ghost var all := symbols[..];
      var sorted := SeqSort.Sort(CompareIds, symbols[..]);
      IdsArePreordered();
      SeqSort.SortSorts(CompareIds, all);
      assert |sorted| == |multiset(sorted)| && |all| == |multiset(all)|;
      CopyInto(symbols, sorted);
      ResultIsNormal(hash, before);
    }
  }

  method CopyInto(symbols: array<Symbol>, sorted: seq<Symbol>)
    requires |sorted| == symbols.Length
    modifies symbols
    ensures symbols[..] == sorted
  {
    for i := 0 to symbols.Length
      invariant forall k :: 0 <= k < i ==> symbols[k] == sorted[k]
    {
      symbols[i] := sorted[i];
    }
  }

  lemma NoIds(symbols: seq<Symbol>)
    ensures IdsAreUnique(symbols[..0]) && forall id :: !HasId(symbols, 0, id)
  {
  }

  lemma OneMoreId(symbols: seq<Symbol>, i: nat)
    requires i < |symbols|
    ensures forall id :: HasId(symbols, i + 1, id) <==> HasId(symbols, i, id) || id == symbols[i].id
    ensures IdsAreUnique(symbols[..i]) && !HasId(symbols, i, symbols[i].id) ==> IdsAreUnique(symbols[..i + 1])
    ensures HasId(symbols, i, symbols[i].id) ==> !IdsAreUnique(symbols)
  {
    forall id | HasId(symbols, i, id) || id == symbols[i].id
      ensures HasId(symbols, i + 1, id)
    {
      if HasId(symbols, i, id) {
        var k :| 0 <= k < i && symbols[k].id == id;
      }
    }
  }

  method IdentifyAll(hash: string -> string, symbols: array<Symbol>) returns (ok: bool, ghost stopped: nat)
    modifies symbols
    ensures ok <==> Accepted(hash, old(symbols[..]))
    ensures ok ==> symbols[..] == NormalizeAll(hash, old(symbols[..]))
    ensures !ok ==> StoppedAt(hash, old(symbols[..]), symbols[..], stopped)
  {
    hide Normalized, Identified, IsValid, HasId, IdsAreUnique;
    ghost var before := symbols[..];
    ghost var all := NormalizeAll(hash, before);
    var seen: set<string> := {};
    NoIds(all);
    for i := 0 to symbols.Length
      invariant forall k :: 0 <= k < i ==> symbols[k] == all[k] && IsValid(all[k])
      invariant forall k :: i <= k < symbols.Length ==> symbols[k] == before[k]
      invariant forall id :: id in seen <==> HasId(all, i, id)
      invariant IdsAreUnique(all[..i])
    {
      symbols[i] := Identified(hash, symbols[i]);
      NormalizedKeeps(hash, before[i]);
      assert all[i] == Normalized(hash, before[i]);
      OneMoreId(all, i);
      if !IsValid(symbols[i]) || symbols[i].id in seen {
        return false, i;
      }
      seen := seen + {symbols[i].id};
      symbols[i] := SortedProvenance(symbols[i]);
    }
    assert all[..symbols.Length] == all;
    return true, 0;
  }

  function SortedProvenance(s: Symbol): Symbol {
    s.(provenance := SeqSort.Sort(CompareProvenance, s.provenance))
  }

  lemma NormalizedKeeps(hash: string -> string, s: Symbol)
    ensures Normalized(hash, s) == SortedProvenance(Identified(hash, s))
    ensures Normalized(hash, s).id == Identified(hash, s).id && IsValid(Normalized(hash, s)) == IsValid(Identified(hash, s))
  {
  }

  // ---- what the result is ----

  lemma {:induction false} TrimLeftTakesSpaces(s: string) returns (before: string)
    ensures s == before + Strings.TrimLeft(s) && NormalForms.AreSpaces(before)
  {
    hide Strings.IsSpace;
    if s != "" && Strings.IsSpace(s[0]) {
      before := TrimLeftTakesSpaces(s[1..]);
      before := [s[0]] + before;
    } else {
      before := "";
    }
  }

  lemma {:induction false} TrimRightTakesSpaces(s: string) returns (after: string)
    ensures s == Strings.TrimRight(s) + after && NormalForms.AreSpaces(after)
  {
    hide Strings.IsSpace;
    if s != "" && Strings.IsSpace(s[|s| - 1]) {
      after := TrimRightTakesSpaces(s[..|s| - 1]);
      after := after + [s[|s| - 1]];
    } else {
      after := "";
    }
  }

  lemma TrimIsTrimmed(s: string)
    ensures NormalForms.IsTrimmed(s, Strings.Trim(s))
  {
    var before := TrimLeftTakesSpaces(s);
    var after := TrimRightTakesSpaces(Strings.TrimLeft(s));
    TrimLeftStops(s);
    TrimRightStops(Strings.TrimLeft(s));
    hide Strings.IsSpace, Strings.TrimLeft, Strings.TrimRight;
    assert s == before + Strings.Trim(s) + after;
  }

  lemma ProvenanceOrder(a: Provenance, b: Provenance)
    ensures CompareProvenance(a, b) <= 0 <==> NormalForms.ProvenanceInOrder(a, b)
  {
    ComparedBefore(a.sourceId, b.sourceId);
    ComparedBefore(a.inputFile, b.inputFile);
    ComparedBefore(a.table, b.table);
    hide Strings.Compare, Strings.StandsBefore;
  }

  lemma ComparedBefore(a: string, b: string)
    ensures a != b ==> (Strings.Compare(a, b) <= 0 <==> Strings.StandsBefore(a, b))
    ensures Strings.StandsBefore(a, b) <==> Strings.Compare(a, b) < 0
  {
    Strings.CompareMeans(a, b);
    Strings.CompareIsZero(a, b);
  }

  lemma IdentityTexts(s: Symbol)
    ensures IdText(s) == NormalForms.IdentityText(s)
  {
    hide IntText, Strings.Join;
  }

  lemma SortedInOrder(s: seq<Provenance>)
    ensures var t := SeqSort.Sort(CompareProvenance, s);
      && multiset(t) == multiset(s)
      && forall i, j :: 0 <= i < j < |t| ==> NormalForms.ProvenanceInOrder(t[i], t[j])
  {
    ProvenanceIsPreordered();
    hide CompareProvenance, SeqSort.Sort, NormalForms.ProvenanceInOrder;
    SeqSort.SortSorts(CompareProvenance, s);
    var t := SeqSort.Sort(CompareProvenance, s);
    forall i, j | 0 <= i < j < |t|
      ensures NormalForms.ProvenanceInOrder(t[i], t[j])
    {
      ProvenanceOrder(t[i], t[j]);
    }
  }

  lemma NormalizedIsNormalForm(hash: string -> string, s: Symbol)
    ensures NormalForms.IsNormalForm(hash, s, Normalized(hash, s))
  {
    TrimIsTrimmed(s.namespace);
    TrimIsTrimmed(s.nativeName);
    SortedInOrder(s.provenance);
    IdentityTexts(Identified(hash, s));
    IdentityTexts(Normalized(hash, s));
    SameKey(Identified(hash, s), Normalized(hash, s));
    hide Strings.Trim, SeqSort.Sort, CompareProvenance, KeyText, NormalForms.IdentityText, NormalForms.IsTrimmed, NormalForms.ProvenanceInOrder;
    assert Normalized(hash, s).id == hash(IdText(Identified(hash, s)));
  }

  /** Symbols are accepted exactly when they have normal forms that are identified and all
      have IDs of their own. */
  lemma AcceptedExactly(hash: string -> string, symbols: seq<Symbol>)
    ensures Accepted(hash, symbols) <==> exists normal :: NormalForms.AreNormalForms(hash, symbols, normal)
  {
    var all := NormalizeAll(hash, symbols);
    hide Normalized, NormalForms.IsNormalForm;
    forall i | 0 <= i < |all|
      ensures NormalForms.IsNormalForm(hash, symbols[i], all[i])
    {
      NormalizedIsNormalForm(hash, symbols[i]);
    }
    if Accepted(hash, symbols) {
      assert NormalForms.AreNormalForms(hash, symbols, all);
    }
    if normal: seq<Symbol> :| NormalForms.AreNormalForms(hash, symbols, normal) {
      forall i | 0 <= i < |all|
        ensures all[i].id == normal[i].id && IsValid(all[i]) == IsValid(normal[i])
      {
        NormalFormsAreAlike(hash, symbols[i], all[i], normal[i]);
      }
    }
  }

  lemma NormalFormsAreAlike(hash: string -> string, s: Symbol, t: Symbol, u: Symbol)
    requires NormalForms.IsNormalForm(hash, s, t) && NormalForms.IsNormalForm(hash, s, u)
    ensures u == t.(provenance := u.provenance)
  {
    TrimmedIsOne(s.namespace, t.namespace, u.namespace);
    TrimmedIsOne(s.nativeName, t.nativeName, u.nativeName);
    hide NormalForms.IsTrimmed, NormalForms.ProvenanceInOrder, Strings.Join;
  }

  lemma TrimmedIsOne(s: string, t: string, u: string)
    requires NormalForms.IsTrimmed(s, t) && NormalForms.IsTrimmed(s, u)
    ensures t == u
  {
    TrimmedIsTrim(s, t);
    TrimmedIsTrim(s, u);
  }

  lemma {:induction false} TrimLeftOf(before: string, t: string)
    requires NormalForms.AreSpaces(before) && (t == "" || !Strings.IsSpace(t[0]))
    ensures Strings.TrimLeft(before + t) == t
  {
    hide Strings.IsSpace;
    if before == "" {
      assert before + t == t;
    } else {
      assert (before + t)[1..] == before[1..] + t;
      TrimLeftOf(before[1..], t);
    }
  }

  lemma {:induction false} TrimRightOf(t: string, after: string)
    requires NormalForms.AreSpaces(after) && (t == "" || !Strings.IsSpace(t[|t| - 1]))
    ensures Strings.TrimRight(t + after) == t
  {
    hide Strings.IsSpace;
    if after == "" {
      assert t + after == t;
    } else {
      var s := t + after;
      assert s[..|s| - 1] == t + after[..|after| - 1];
      TrimRightOf(t, after[..|after| - 1]);
    }
  }

  lemma {:induction false} SpacesTrim(s: string)
    requires NormalForms.AreSpaces(s)
    ensures Strings.TrimLeft(s) == ""
  {
    hide Strings.IsSpace;
    if s != "" {
      SpacesTrim(s[1..]);
    }
  }

  lemma SpacesAround(before: string, t: string, after: string)
    requires NormalForms.AreSpaces(before) && NormalForms.AreSpaces(after)
    requires t != "" ==> !Strings.IsSpace(t[0]) && !Strings.IsSpace(t[|t| - 1])
    ensures Strings.Trim(before + (t + after)) == t
  {
    hide Strings.IsSpace;
    if t == "" {
      assert NormalForms.AreSpaces(before + after) && t + after == after;
      hide NormalForms.AreSpaces;
      SpacesTrim(before + after);
    } else {
      assert (t + after)[0] == t[0];
      hide NormalForms.AreSpaces, Strings.TrimLeft, Strings.TrimRight;
      TrimLeftOf(before, t + after);
      TrimRightOf(t, after);
    }
  }

  lemma TrimmedIsTrim(s: string, t: string)
    requires NormalForms.IsTrimmed(s, t)
    ensures t == Strings.Trim(s)
  {
    hide Strings.IsSpace, Strings.Trim, NormalForms.AreSpaces;
    var before, after :| s == before + t + after && NormalForms.AreSpaces(before) && NormalForms.AreSpaces(after);
    assert s == before + (t + after);
    SpacesAround(before, t, after);
  }

  lemma UniqueMeansNoRepeats(symbols: seq<Symbol>)
    requires IdsAreUnique(symbols)
    ensures NoRepeats(symbols)
  {
    forall i, j | 0 <= i < j < |symbols|
      ensures symbols[i] != symbols[j]
    {
      assert symbols[i].id != symbols[j].id;
    }
  }

  /** When symbols are accepted, the result has the normal form of each, once, by ascending
      IDs. */
  lemma ResultIsNormal(hash: string -> string, symbols: seq<Symbol>)
    requires Accepted(hash, symbols)
    ensures NormalForms.IsNormalInventory(hash, symbols, Result(hash, symbols))
  {
    var all, r := NormalizeAll(hash, symbols), Result(hash, symbols);
    IdsArePreordered();
    hide Normalized, CompareIds, SeqSort.Sort, NormalForms.IsNormalForm, IsPreorder, Strings.StandsBefore;
    SeqSort.SortSorts(CompareIds, all);
    IdsAreUniqueIn(all, r);
    UniqueMeansNoRepeats(r);
    assert |r| == |multiset(r)| && |all| == |multiset(all)|;
    forall x | x in r
      ensures x in all
    {
      assert x in multiset(r);
    }
    var order := Permuted(all, r);
    forall i | 0 <= i < |r|
      ensures NormalForms.IsNormalForm(hash, symbols[order[i]], r[i])
    {
      NormalizedIsNormalForm(hash, symbols[order[i]]);
    }
    AscendingIds(r);
  }

  lemma AscendingIds(r: seq<Symbol>)
    requires IdsAreUnique(r) && SeqSort.IsSorted(CompareIds, r)
    ensures forall i, j :: 0 <= i < j < |r| ==> Strings.StandsBefore(r[i].id, r[j].id)
  {
    hide Strings.Compare, Strings.StandsBefore;
    forall i, j | 0 <= i < j < |r|
      ensures Strings.StandsBefore(r[i].id, r[j].id)
    {
      assert CompareIds(r[i], r[j]) <= 0;
      ComparedBefore(r[i].id, r[j].id);
    }
  }
}
