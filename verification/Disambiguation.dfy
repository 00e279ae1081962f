/** Exact duplicates in the metadata are numbered in the order of their metadata rows,
    so that every symbol has an identity of its own.
 */
module Disambiguation {
  import opened Options
  import opened Decimal
  import opened Sequences
  import opened Symbols
  import Strings

  const MARKER: string := " #upstream-duplicate="

  // ---- groups ----

  /** Where the symbols with this key are, in ascending order. */
  function Indices(symbols: seq<Symbol>, key: string): seq<nat> {
    if symbols == [] then []
    else
      var n := |symbols| - 1;
      Indices(symbols[..n], key) + if KeyText(symbols[n]) == key then [n] else []
  }

  lemma {:induction false} IndicesAre(symbols: seq<Symbol>, key: string, i: nat)
    ensures i in Indices(symbols, key) <==> i < |symbols| && KeyText(symbols[i]) == key
  {
    if symbols != [] {
      IndicesAre(symbols[..|symbols| - 1], key, i);
    }
  }

  lemma {:induction false} IndicesDoNotRepeat(symbols: seq<Symbol>, key: string)
    ensures NoRepeats(Indices(symbols, key))
  {
    if symbols != [] {
      var n := |symbols| - 1;
      IndicesDoNotRepeat(symbols[..n], key);
      forall i | 0 <= i < |Indices(symbols[..n], key)|
        ensures Indices(symbols[..n], key)[i] < n
      {
        IndicesAre(symbols[..n], key, Indices(symbols[..n], key)[i]);
      }
    }
  }

  function GroupSize(symbols: seq<Symbol>, i: nat): nat
    requires i < |symbols|
  {
    |Indices(symbols, KeyText(symbols[i]))|
  }

  // ---- the numbering ----

  /** The first provenance's table and row; nothing stands for none. */
  function RowOf(s: Symbol): (string, nat) {
    if s.provenance == [] then ("", 0) else (s.provenance[0].table, s.provenance[0].row)
  }

  predicate RowLess(a: (string, nat), b: (string, nat)) {
    if a.0 != b.0 then Strings.Less(a.0, b.0) else a.1 < b.1
  }

  function Mark(s: Symbol, ordinal: nat, count: nat): Symbol {
    s.(signature := s.signature + MARKER + Numeral(ordinal), duplicate := Some(Duplicate(ordinal, count)))
  }

  function MarkIfDuplicate(symbols: seq<Symbol>, i: nat, ordinal: nat): Symbol
    requires i < |symbols|
  {
    if GroupSize(symbols, i) < 2 then symbols[i] else Mark(symbols[i], ordinal, GroupSize(symbols, i))
  }

  /** Every symbol has a number of its own within its group, by ascending rows. */
  ghost predicate IsNumbering(symbols: seq<Symbol>, ordinals: seq<nat>) {
    && |ordinals| == |symbols| && (forall i :: 0 <= i < |symbols| ==> ordinals[i] < GroupSize(symbols, i))
    && forall i, j :: 0 <= i < |symbols| && 0 <= j < |symbols| && i != j && KeyText(symbols[i]) == KeyText(symbols[j]) ==>
         Numbered(symbols[i], symbols[j], ordinals[i], ordinals[j])
  }

  predicate Numbered(a: Symbol, b: Symbol, m: nat, n: nat) {
    m != n && (RowLess(RowOf(a), RowOf(b)) ==> m < n)
  }

  /** The symbols after numbering. */
  ghost predicate IsDisambiguated(before: seq<Symbol>, after: seq<Symbol>, ordinals: seq<nat>) {
    && IsNumbering(before, ordinals) && |after| == |before|
    && forall i :: 0 <= i < |before| ==> after[i] == MarkIfDuplicate(before, i, ordinals[i])
  }

  // ---- identities are distinct ----

  lemma OneSpace(k: nat)
    requires 0 < k < |MARKER|
    ensures MARKER[k] != MARKER[0]
  {
  }

  /** Nothing after the beginning of a mark looks like another beginning. */
  lemma MarksDoNotMove(a: string, b: string, m: string, n: string)
    requires |a| < |b| && AllDigits(m)
    ensures a + MARKER + m != b + MARKER + n
  {
    var t, u, k := a + MARKER + m, b + MARKER + n, |b| - |a|;
    assert u[|b|] == MARKER[0];
    if k < |MARKER| {
      OneSpace(k);
      assert t[|b|] == MARKER[k];
    } else if |b| < |t| {
      assert t[|b|] == m[k - |MARKER|];
      assert IsDigit(t[|b|]);
    }
  }

  /** A marked signature shows what was marked, and with which number. */
  lemma MarkedSignatures(a: string, b: string, m: nat, n: nat)
    requires a + MARKER + Numeral(m) == b + MARKER + Numeral(n)
    ensures a == b && m == n
  {
    if |a| < |b| {
      MarksDoNotMove(a, b, Numeral(m), Numeral(n));
    } else if |b| < |a| {
      MarksDoNotMove(b, a, Numeral(n), Numeral(m));
    } else {
      var s, t := a + MARKER + Numeral(m), b + MARKER + Numeral(n);
      assert a == s[..|a|] && b == t[..|b|];
      assert Numeral(m) == s[|a| + |MARKER|..] && Numeral(n) == t[|b| + |MARKER|..];
      NumeralDenotes(m);
      NumeralDenotes(n);
    }
  }

  lemma MarkedIsNotPlain(a: string, m: string, b: string)
    requires !Strings.Contains(b, MARKER)
    ensures a + MARKER + m != b
  {
    assert Strings.OccursAt(a + MARKER + m, MARKER, |a|);
  }

  ghost predicate AreNulFree(symbols: seq<Symbol>) {
    forall i :: 0 <= i < |symbols| ==> NulFree(symbols[i])
  }

  lemma MarkedParts(s: Symbol, m: nat, count: nat)
    ensures var p, q := KeyParts(s), KeyParts(Mark(s, m, count));
      |p| == |q| == 8 && q[5] == p[5] + MARKER + Numeral(m) && p[5] == s.signature && forall k :: 0 <= k < 8 && k != 5 ==> q[k] == p[k]
  {
    hide IntText, Numeral;
  }

  lemma EightPartsEqual(p: seq<string>, q: seq<string>)
    requires |p| == |q| == 8 && p[5] == q[5] && forall k :: 0 <= k < 8 && k != 5 ==> p[k] == q[k]
    ensures p == q
  {
  }

  /** Two marked symbols have the same identity only if they had it before, and the
      same number. */
  lemma BothMarked(s: Symbol, t: Symbol, m: nat, n: nat, c: nat, d: nat)
    ensures KeyParts(Mark(s, m, c)) == KeyParts(Mark(t, n, d)) <==> KeyParts(s) == KeyParts(t) && m == n
  {
    hide KeyParts, Mark, Numeral;
    MarkedParts(s, m, c);
    MarkedParts(t, n, d);
    if KeyParts(Mark(s, m, c)) == KeyParts(Mark(t, n, d)) {
      MarkedSignatures(s.signature, t.signature, m, n);
      EightPartsEqual(KeyParts(s), KeyParts(t));
    }
    if KeyParts(s) == KeyParts(t) && m == n {
      EightPartsEqual(KeyParts(Mark(s, m, c)), KeyParts(Mark(t, n, d)));
    }
  }

  lemma TwoInGroup(symbols: seq<Symbol>, i: nat, j: nat)
    requires i < |symbols| && j < |symbols| && i != j && KeyText(symbols[i]) == KeyText(symbols[j])
    ensures GroupSize(symbols, i) >= 2
  {
    var group := Indices(symbols, KeyText(symbols[i]));
    IndicesAre(symbols, KeyText(symbols[i]), i);
    IndicesAre(symbols, KeyText(symbols[i]), j);
    var a, b :| 0 <= a < |group| && 0 <= b < |group| && group[a] == i && group[b] == j;
    assert a != b;
  }

  /** The symbol k, alone in its group, already has the identity that the symbol of
      the group of i with number m gets. */
  ghost predicate TakesMarked(before: seq<Symbol>, i: nat, k: nat, m: nat) {
    && i < |before| && k < |before| && GroupSize(before, k) < 2 <= GroupSize(before, i) && m < GroupSize(before, i)
    && KeyParts(before[k]) == KeyParts(before[i].(signature := before[i].signature + MARKER + Numeral(m)))
  }

  ghost predicate Collide(after: seq<Symbol>, i: nat, j: nat) {
    i < |after| && j < |after| && i != j && KeyParts(after[i]) == KeyParts(after[j])
  }

  /** The parts of the identity that Mark gives do not depend on the count. */
  lemma MarkedIdentity(s: Symbol, m: nat, count: nat)
    ensures KeyParts(Mark(s, m, count)) == KeyParts(s.(signature := s.signature + MARKER + Numeral(m)))
  {
    hide IntText, Numeral;
  }

  function Below(n: nat): set<nat> {
    if n == 0 then {} else Below(n - 1) + {n - 1}
  }

  lemma {:induction false} HowManyBelow(n: nat)
    ensures |Below(n)| == n && forall k: nat :: k in Below(n) <==> k < n
  {
    if n > 0 {
      HowManyBelow(n - 1);
    }
  }

  /** As many different numbers as there are below: all of them. */
  lemma Pigeonhole(s: seq<nat>, m: nat)
    requires NoRepeats(s) && (forall i :: 0 <= i < |s| ==> s[i] < |s|) && m < |s|
    ensures m in s
  {
    SizeOf(s);
    HowManyBelow(|s|);
    hide Below;
    var all, these := Below(|s|), SetOf(s);
    assert these <= all;
    assert |all - these| == |all| - |these|;
    assert m in all && m !in all - these;
  }

  /** In a numbered group every number is given to someone. */
  lemma EveryNumberIsGiven(symbols: seq<Symbol>, ordinals: seq<nat>, i: nat, m: nat) returns (k: nat)
    requires IsNumbering(symbols, ordinals) && i < |symbols| && m < GroupSize(symbols, i)
    ensures k < |symbols| && KeyText(symbols[k]) == KeyText(symbols[i]) && ordinals[k] == m
  {
    hide KeyText, Indices;
    var key := KeyText(symbols[i]);
    var group := Indices(symbols, key);
    IndicesDoNotRepeat(symbols, key);
    forall a | 0 <= a < |group|
      ensures group[a] < |symbols| && KeyText(symbols[group[a]]) == key
    {
      IndicesAre(symbols, key, group[a]);
    }
    var given := seq(|group|, a requires 0 <= a < |group| => ordinals[group[a]]);
    forall a, b | 0 <= a < b < |given|
      ensures given[a] != given[b]
    {
      assert Numbered(symbols[group[a]], symbols[group[b]], ordinals[group[a]], ordinals[group[b]]);
    }
    Pigeonhole(given, m);
    var a :| 0 <= a < |given| && given[a] == m;
    k := group[a];
  }

  /** Two symbols collide after the numbering only if one of them, unnumbered, already
      had the identity of the other, numbered. */
  lemma CollisionTakesMarked(before: seq<Symbol>, after: seq<Symbol>, ordinals: seq<nat>, i: nat, j: nat)
    returns (x: nat, k: nat, m: nat)
    requires IsDisambiguated(before, after, ordinals) && AreNulFree(before) && Collide(after, i, j)
    ensures TakesMarked(before, x, k, m)
  {
    hide KeyParts, KeyText, NulFree, Indices, Mark;
    var s, t := before[i], before[j];
    KeyTextIsInjective(s, t);
    MarkedIdentity(s, ordinals[i], GroupSize(before, i));
    MarkedIdentity(t, ordinals[j], GroupSize(before, j));
    BothMarked(s, t, ordinals[i], ordinals[j], GroupSize(before, i), GroupSize(before, j));
    assert KeyText(s) == KeyText(t) ==> Numbered(s, t, ordinals[i], ordinals[j]);
    if KeyText(s) == KeyText(t) {
      TwoInGroup(before, i, j);
      TwoInGroup(before, j, i);
    }
    if GroupSize(before, i) < 2 {
      x, k, m := j, i, ordinals[j];
    } else {
      x, k, m := i, j, ordinals[i];
    }
  }

  lemma TakenMarkedCollides(before: seq<Symbol>, after: seq<Symbol>, ordinals: seq<nat>, i: nat, k: nat, m: nat) returns (j: nat)
    requires IsDisambiguated(before, after, ordinals) && AreNulFree(before) && TakesMarked(before, i, k, m)
    ensures Collide(after, j, k)
  {
    hide KeyParts, KeyText, NulFree, Indices, Mark;
    j := EveryNumberIsGiven(before, ordinals, i, m);
    KeyTextIsInjective(before[i], before[j]);
    assert GroupSize(before, j) == GroupSize(before, i);
    MarkedIdentity(before[i], m, GroupSize(before, i));
    BothMarked(before[i], before[j], m, m, GroupSize(before, i), GroupSize(before, i));
  }

  /** Identities collide after the numbering exactly when some symbol that is alone
      already has the identity of a numbered one. */
  lemma CollisionsExactly(before: seq<Symbol>, after: seq<Symbol>, ordinals: seq<nat>)
    requires IsDisambiguated(before, after, ordinals) && AreNulFree(before)
    ensures (exists i: nat, j: nat :: Collide(after, i, j)) <==> exists i: nat, k: nat, m: nat :: TakesMarked(before, i, k, m)
  {
    hide IsNumbering, MarkIfDuplicate, AreNulFree, KeyParts, TakesMarked;
    if i: nat, j: nat :| Collide(after, i, j) {
      var x, k, m := CollisionTakesMarked(before, after, ordinals, i, j);
    }
    if i: nat, k: nat, m: nat :| TakesMarked(before, i, k, m) {
      var j := TakenMarkedCollides(before, after, ordinals, i, k, m);
      assert Collide(after, j, k);
    }
  }

  /** Parts without NULs, and a signature that does not look marked already. */
  ghost predicate IsPlain(s: Symbol) {
    NulFree(s) && !Strings.Contains(s.signature, MARKER)
  }

  ghost predicate ArePlain(symbols: seq<Symbol>) {
    forall i :: 0 <= i < |symbols| ==> IsPlain(symbols[i])
  }

  lemma SignaturePart(s: Symbol)
    ensures |KeyParts(s)| == 8 && KeyParts(s)[5] == s.signature
  {
  }

  lemma PlainTakesNothing(before: seq<Symbol>, i: nat, k: nat, m: nat)
    requires ArePlain(before)
    ensures !TakesMarked(before, i, k, m)
  {
    hide Strings.Contains, Numeral, KeyParts;
    if i < |before| && k < |before| {
      MarkedIsNotPlain(before[i].signature, Numeral(m), before[k].signature);
      SignaturePart(before[k]);
      SignaturePart(before[i].(signature := before[i].signature + MARKER + Numeral(m)));
    }
  }

  /** When no signature looks marked, no two symbols share an identity after the
      numbering. */
  lemma IdentitiesAreDistinct(before: seq<Symbol>, after: seq<Symbol>, ordinals: seq<nat>, i: nat, j: nat)
    requires IsDisambiguated(before, after, ordinals) && ArePlain(before)
    requires i < |before| && j < |before| && i != j
    ensures KeyParts(after[i]) != KeyParts(after[j])
  {
    hide KeyParts, NulFree, Strings.Contains, TakesMarked;
    if Collide(after, i, j) {
      var x, k, m := CollisionTakesMarked(before, after, ordinals, i, j);
      PlainTakesNothing(before, x, k, m);
    }
  }

  lemma MarkerIsNulFree(n: nat)
    ensures NUL !in MARKER && NUL !in Numeral(n)
  {
    NumeralIsNulFree(n);
  }

  lemma IndicesStep(symbols: seq<Symbol>, key: string, i: nat)
    requires i < |symbols|
    ensures Indices(symbols[..i + 1], key) == Indices(symbols[..i], key) + if KeyText(symbols[i]) == key then [i] else []
    ensures Indices(symbols[..0], key) == []
  {
    assert symbols[..i + 1][..i] == symbols[..i];
  }

  lemma IndicesOfThree(symbols: seq<Symbol>, key: string)
    requires |symbols| == 3
    ensures |Indices(symbols, key)| == (if KeyText(symbols[0]) == key then 1 else 0) + (if KeyText(symbols[1]) == key then 1 else 0)
                                     + (if KeyText(symbols[2]) == key then 1 else 0)
  {
    hide Indices, KeyText;
    IndicesStep(symbols, key, 0);
    IndicesStep(symbols, key, 1);
    IndicesStep(symbols, key, 2);
    assert symbols[..3] == symbols;
  }

  /** A signature that looks marked can take the identity of a marked one. */
  lemma MarkedInputCollides(before: seq<Symbol>, after: seq<Symbol>, ordinals: seq<nat>)
    requires IsDisambiguated(before, after, ordinals) && |before| == 3
    requires KeyText(before[0]) == KeyText(before[1]) != KeyText(before[2]) && KeyParts(before[0]) == KeyParts(before[1])
    requires before[2] == before[0].(signature := before[0].signature + MARKER + Numeral(0))
    ensures KeyParts(after[2]) == KeyParts(after[if ordinals[0] == 0 then 0 else 1])
  {
    IndicesOfThree(before, KeyText(before[0]));
    IndicesOfThree(before, KeyText(before[2]));
    hide Indices, KeyText;
    assert Numbered(before[0], before[1], ordinals[0], ordinals[1]);
    var k := if ordinals[0] == 0 then 0 else 1;
    assert GroupSize(before, k) == 2 && GroupSize(before, 2) == 1;
    assert ordinals[k] == 0;
    MarkedPart(before[0], before[k], 2);
  }

  function Beep(row: nat, signature: string): Symbol {
    Symbol("", "w", "W", "f", "Beep", "", "", signature, 0, [Provenance("w", "", "M", row, "")], None, true, "")
  }

  lemma BeepIsNulFree(row: nat, signature: string)
    requires NUL !in signature
    ensures NulFree(Beep(row, signature))
  {
    hide MARKER;
  }

  lemma BeepsWithOneKey(a: nat, b: nat, s: string, t: string)
    requires NUL !in s && NUL !in t
    ensures KeyText(Beep(a, s)) == KeyText(Beep(b, t)) <==> s == t
  {
    BeepIsNulFree(a, s);
    BeepIsNulFree(b, t);
    hide KeyText, NulFree, IntText;
    KeyTextIsInjective(Beep(a, s), Beep(b, t));
    assert KeyParts(Beep(a, s))[5] == s && KeyParts(Beep(b, t))[5] == t;
    assert s == t ==> KeyParts(Beep(a, s)) == KeyParts(Beep(b, t));
  }

  lemma TwoOfThree(a: Symbol, b: Symbol, c: Symbol)
    requires KeyText(a) == KeyText(b) != KeyText(c) && Numbered(a, b, 0, 1) && Numbered(b, a, 1, 0)
    ensures IsDisambiguated([a, b, c], [Mark(a, 0, 2), Mark(b, 1, 2), c], [0, 1, 0])
  {
    hide KeyText, Indices, Numbered, Mark;
    IndicesOfThree([a, b, c], KeyText(a));
    IndicesOfThree([a, b, c], KeyText(c));
  }

  lemma BeepsAreNumbered(signature: string)
    ensures Numbered(Beep(1, signature), Beep(2, signature), 0, 1) && Numbered(Beep(2, signature), Beep(1, signature), 1, 0)
  {
    hide Strings.Less;
  }

  lemma BeepMarked(signature: string)
    ensures KeyParts(Mark(Beep(1, signature), 0, 2)) == KeyParts(Beep(3, signature + MARKER + Numeral(0)))
  {
    hide IntText, MARKER, Numeral;
  }

  lemma MarkedText()
    ensures MARKER + Numeral(0) == " #upstream-duplicate=0" && NUL !in MARKER + "0"
  {
    MarkerIsNulFree(0);
    assert Numeral(0) == "0";
  }

  /** Two functions that differ in nothing but their rows, and a third whose signature
      already looks marked: the first and the third end up with one identity. */
  lemma CollisionExample()
    ensures var looksMarked := Beep(3, " #upstream-duplicate=0");
            var after := [Mark(Beep(1, ""), 0, 2), Mark(Beep(2, ""), 1, 2), looksMarked];
            && IsDisambiguated([Beep(1, ""), Beep(2, ""), looksMarked], after, [0, 1, 0])
            && KeyParts(after[0]) == KeyParts(after[2])
  {
    var signature := "" + MARKER + Numeral(0);
    MarkedText();
    assert signature == MARKER + Numeral(0);
    hide KeyText, Beep, Mark, KeyParts, Numeral, IsDisambiguated, Numbered, MARKER;
    BeepsWithOneKey(1, 2, "", "");
    BeepsWithOneKey(1, 3, "", signature);
    BeepsAreNumbered("");
    BeepMarked("");
    TwoOfThree(Beep(1, ""), Beep(2, ""), Beep(3, signature));
  }

  lemma MarkedPart(s: Symbol, t: Symbol, count: nat)
    requires KeyParts(s) == KeyParts(t)
    ensures KeyParts(s.(signature := s.signature + MARKER + Numeral(0))) == KeyParts(Mark(t, 0, count))
  {
    hide IntText, Numeral;
    assert forall x :: 0 <= x < 8 ==> KeyParts(s)[x] == KeyParts(t)[x];
    assert KeyParts(s)[0] == s.sourceId && KeyParts(s)[1] == s.namespace && KeyParts(s)[2] == s.kind && KeyParts(s)[3] == s.nativeName;
    assert KeyParts(s)[4] == s.architecture && KeyParts(s)[5] == s.signature && KeyParts(s)[7] == s.abiProfile;
    assert KeyParts(s)[6] == IntText(s.genericArity);
  }

  // ---- what the numbering says ----

  /** a's first provenance comes before b's, by table and then row. */
  ghost predicate RowBefore(a: Symbol, b: Symbol) {
    var s, t := if a.provenance == [] then "" else a.provenance[0].table, if b.provenance == [] then "" else b.provenance[0].table;
    var m, n := if a.provenance == [] then 0 else a.provenance[0].row, if b.provenance == [] then 0 else b.provenance[0].row;
    if s != t then Strings.StandsBefore(s, t) else m < n
  }

  lemma RowsInOrder(a: Symbol, b: Symbol)
    ensures RowBefore(a, b) <==> RowLess(RowOf(a), RowOf(b))
  {
    Strings.CompareMeans(RowOf(a).0, RowOf(b).0);
  }

  /** The symbols with the same identity. */
  ghost function Twins(symbols: seq<Symbol>, i: nat): set<nat>
    requires i < |symbols|
  {
    set j: nat | j < |symbols| && KeyParts(symbols[j]) == KeyParts(symbols[i])
  }

  lemma TwinsAreGroup(symbols: seq<Symbol>, i: nat)
    requires AreNulFree(symbols) && i < |symbols|
    ensures |Twins(symbols, i)| == GroupSize(symbols, i)
    ensures forall j: nat :: j in Twins(symbols, i) <==> j < |symbols| && KeyText(symbols[j]) == KeyText(symbols[i])
  {
    var group := Indices(symbols, KeyText(symbols[i]));
    IndicesDoNotRepeat(symbols, KeyText(symbols[i]));
    SizeOf(group);
    hide KeyParts, KeyText, NulFree, Indices;
    forall j: nat
      ensures j in Twins(symbols, i) <==> j < |symbols| && KeyText(symbols[j]) == KeyText(symbols[i])
      ensures j in group <==> j < |symbols| && KeyText(symbols[j]) == KeyText(symbols[i])
    {
      if j < |symbols| {
        KeyTextIsInjective(symbols[j], symbols[i]);
      }
      IndicesAre(symbols, KeyText(symbols[i]), j);
    }
    assert Twins(symbols, i) == SetOf(group);
  }

  /** A symbol alone stays as it is; of several with one identity each gets a number of its
      own below their count, lower for an earlier row, in its signature and beside it. */
  lemma NumberingMeans(before: seq<Symbol>, after: seq<Symbol>, ordinals: seq<nat>, i: nat)
    requires IsDisambiguated(before, after, ordinals) && AreNulFree(before) && i < |before|
    ensures var twins, n := Twins(before, i), ordinals[i];
      && (|twins| < 2 ==> after[i] == before[i])
      && (|twins| >= 2 ==>
            after[i] == before[i].(signature := before[i].signature + " #upstream-duplicate=" + Numeral(n), duplicate := Some(Duplicate(n, |twins|))))
      && n < |twins| && (forall j: nat :: j in twins && j != i ==>
            j < |before| && ordinals[j] != n && (RowBefore(before[i], before[j]) ==> n < ordinals[j]))
  {
    TwinsAreGroup(before, i);
    hide KeyParts, KeyText, NulFree, Indices, RowLess, RowOf, RowBefore, Twins, GroupSize;
    forall j: nat | j in Twins(before, i) && j != i
      ensures j < |before| && ordinals[j] != ordinals[i] && (RowBefore(before[i], before[j]) ==> ordinals[i] < ordinals[j])
    {
      assert Numbered(before[i], before[j], ordinals[i], ordinals[j]);
      RowsInOrder(before[i], before[j]);
    }
  }

  // ---- the program's loops ----

  method GroupByKey(symbols: array<Symbol>) returns (groups: map<string, seq<nat>>)
    ensures forall key :: key in groups ==> groups[key] == Indices(symbols[..], key)
    ensures forall i :: 0 <= i < symbols.Length ==> KeyText(symbols[i]) in groups
  {
    hide KeyText, Indices;
    groups := map[];
    ghost var all := symbols[..];
    NoIndices();
    for i := 0 to symbols.Length
      invariant forall key :: GroupAt(groups, key) == Indices(all[..i], key)
      invariant forall k :: 0 <= k < i ==> KeyText(all[k]) in groups
    {
      var key := KeyText(symbols[i]);
      var more := groups[key := GroupAt(groups, key) + [i]];
      forall x
        ensures Indices(all[..i + 1], x) == GroupAt(more, x)
      {
        IndicesStep(all, x, i);
        assert GroupAt(groups, x) + [] == GroupAt(groups, x);
      }
      groups := more;
    }
    assert all[..symbols.Length] == all;
    assert forall key :: key in groups ==> groups[key] == GroupAt(groups, key);
  }

  lemma NoIndices()
    ensures forall key :: Indices([], key) == []
  {
  }

  function GroupAt(groups: map<string, seq<nat>>, key: string): seq<nat> {
    if key in groups then groups[key] else []
  }

  function InsertByRow(symbols: seq<Symbol>, sorted: seq<nat>, k: nat): (r: seq<nat>)
    requires k < |symbols| && forall i :: 0 <= i < |sorted| ==> sorted[i] < |symbols|
    ensures multiset(r) == multiset(sorted) + multiset{k}
    ensures forall i :: 0 <= i < |r| ==> r[i] < |symbols|
  {
    if sorted == [] then [k]
    else if RowLess(RowOf(symbols[k]), RowOf(symbols[sorted[0]])) then [k] + sorted
    else
      assert sorted == [sorted[0]] + sorted[1..];
      [sorted[0]] + InsertByRow(symbols, sorted[1..], k)
  }

  ghost predicate ByRow(symbols: seq<Symbol>, sorted: seq<nat>)
    requires forall i :: 0 <= i < |sorted| ==> sorted[i] < |symbols|
  {
    forall i, j :: 0 <= i < j < |sorted| ==> !RowLess(RowOf(symbols[sorted[j]]), RowOf(symbols[sorted[i]]))
  }

  lemma {:induction false} InsertByRowSorts(symbols: seq<Symbol>, sorted: seq<nat>, k: nat)
    requires k < |symbols| && forall i :: 0 <= i < |sorted| ==> sorted[i] < |symbols|
    requires ByRow(symbols, sorted)
    ensures ByRow(symbols, InsertByRow(symbols, sorted, k))
  {
    if sorted != [] {
      var row, first := RowOf(symbols[k]), RowOf(symbols[sorted[0]]);
      if RowLess(row, first) {
        forall j | 0 <= j < |sorted|
          ensures !RowLess(RowOf(symbols[sorted[j]]), row)
        {
          NotBelow(row, first, RowOf(symbols[sorted[j]]));
        }
      } else {
        InsertByRowSorts(symbols, sorted[1..], k);
        var rest := InsertByRow(symbols, sorted[1..], k);
        forall j | 0 <= j < |rest|
          ensures !RowLess(RowOf(symbols[rest[j]]), first)
        {
          assert rest[j] in multiset(rest);
          assert rest[j] == k || rest[j] in sorted[1..];
        }
      }
    }
  }

  lemma NotBelow(a: (string, nat), b: (string, nat), c: (string, nat))
    requires RowLess(a, b) && !RowLess(c, b)
    ensures !RowLess(c, a)
  {
    Strings.CompareIsAntisymmetric(a.0, c.0);
    Strings.CompareIsAntisymmetric(c.0, b.0);
    Strings.CompareIsZero(c.0, b.0);
    if Strings.Compare(c.0, a.0) <= 0 && Strings.Compare(a.0, b.0) <= 0 {
      Strings.CompareIsTransitive(c.0, a.0, b.0);
    }
  }

  /** The group's indices by ascending row; rows that are equal may come in any
      order. */
  method SortByRow(symbols: seq<Symbol>, indices: seq<nat>) returns (sorted: seq<nat>)
    requires forall i :: 0 <= i < |indices| ==> indices[i] < |symbols|
    ensures multiset(sorted) == multiset(indices)
    ensures forall i :: 0 <= i < |sorted| ==> sorted[i] < |symbols|
    ensures ByRow(symbols, sorted)
  {
    hide ByRow, InsertByRow;
    sorted := [];
    NothingByRow(symbols);
    for i := 0 to |indices|
      invariant multiset(sorted) == multiset(indices[..i])
      invariant forall k :: 0 <= k < |sorted| ==> sorted[k] < |symbols|
      invariant ByRow(symbols, sorted)
    {
      assert indices[..i + 1] == indices[..i] + [indices[i]];
      InsertByRowSorts(symbols, sorted, indices[i]);
      sorted := InsertByRow(symbols, sorted, indices[i]);
    }
    assert indices[..|indices|] == indices;
  }

  lemma NothingByRow(symbols: seq<Symbol>)
    ensures ByRow(symbols, [])
  {
  }

  /** Numbers the symbols at these places. */
  method MarkGroup(symbols: array<Symbol>, sorted: seq<nat>)
    requires NoRepeats(sorted) && forall k :: 0 <= k < |sorted| ==> sorted[k] < symbols.Length
    modifies symbols
    ensures forall k :: 0 <= k < |sorted| ==> symbols[sorted[k]] == Mark(old(symbols[sorted[k]]), k, |sorted|)
    ensures forall i :: 0 <= i < symbols.Length && i !in sorted ==> symbols[i] == old(symbols[i])
  {
    hide Mark;
    for ordinal := 0 to |sorted|
      invariant forall k :: 0 <= k < ordinal ==> symbols[sorted[k]] == Mark(old(symbols[sorted[k]]), k, |sorted|)
      invariant forall k :: ordinal <= k < |sorted| ==> symbols[sorted[k]] == old(symbols[sorted[k]])
      invariant forall i :: 0 <= i < symbols.Length && i !in sorted ==> symbols[i] == old(symbols[i])
    {
      var index := sorted[ordinal];
      symbols[index] := Mark(symbols[index], ordinal, |sorted|);
    }
  }

  // ---- the whole pass ----

  function Position(sorted: seq<nat>, i: nat): nat
    requires i in sorted
  {
    if sorted[0] == i then 0 else 1 + Position(sorted[1..], i)
  }

  lemma {:induction false} PositionIs(sorted: seq<nat>, i: nat)
    requires i in sorted
    ensures Position(sorted, i) < |sorted| && sorted[Position(sorted, i)] == i
  {
    if sorted[0] != i {
      PositionIs(sorted[1..], i);
    }
  }

  /** The numbers given by one group's order. */
  ghost function Numbering(ordinals: seq<nat>, sorted: seq<nat>): (r: seq<nat>)
    ensures |r| == |ordinals|
  {
    seq(|ordinals|, i requires 0 <= i < |ordinals| => if i in sorted then Position(sorted, i) else ordinals[i])
  }

  /** The symbols whose keys are done are numbered; the others are as before. */
  ghost predicate DoneExcept(before: seq<Symbol>, after: seq<Symbol>, ordinals: seq<nat>, todo: set<string>) {
    && |after| == |ordinals| == |before|
    && (forall i :: 0 <= i < |before| ==> IsDone(before, after, ordinals, todo, i))
    && forall i, j :: 0 <= i < |before| && 0 <= j < |before| && i != j && KeyText(before[i]) == KeyText(before[j]) && KeyText(before[i]) !in todo ==>
         Numbered(before[i], before[j], ordinals[i], ordinals[j])
  }

  predicate IsDone(before: seq<Symbol>, after: seq<Symbol>, ordinals: seq<nat>, todo: set<string>, i: nat)
    requires |after| == |ordinals| == |before| && i < |before|
  {
    if KeyText(before[i]) in todo then after[i] == before[i]
    else ordinals[i] < GroupSize(before, i) && after[i] == MarkIfDuplicate(before, i, ordinals[i])
  }

  lemma Members(symbols: seq<Symbol>, key: string, sorted: seq<nat>)
    requires multiset(sorted) == multiset(Indices(symbols, key))
    ensures |sorted| == |Indices(symbols, key)| && NoRepeats(sorted)
    ensures forall i :: 0 <= i < |sorted| ==> sorted[i] < |symbols| && KeyText(symbols[sorted[i]]) == key
    ensures forall i :: 0 <= i < |symbols| ==> (i in sorted <==> KeyText(symbols[i]) == key)
  {
    hide KeyText, Indices;
    var group := Indices(symbols, key);
    assert |sorted| == |multiset(sorted)| && |group| == |multiset(group)|;
    IndicesDoNotRepeat(symbols, key);
    SameWithoutRepeats(group, sorted);
    forall i: nat
      ensures i in sorted <==> i < |symbols| && KeyText(symbols[i]) == key
    {
      IndicesAre(symbols, key, i);
      assert i in sorted <==> i in multiset(sorted);
      assert i in group <==> i in multiset(group);
    }
    assert forall i :: 0 <= i < |sorted| ==> sorted[i] in sorted;
  }

  lemma SameWithoutRepeats(a: seq<nat>, b: seq<nat>)
    requires NoRepeats(a) && multiset(a) == multiset(b)
    ensures NoRepeats(b)
  {
    forall i, j | 0 <= i < j < |b|
      ensures b[i] != b[j]
    {
      OnceEach(a, b[i]);
      assert b == b[..j] + b[j..];
      assert b[i] in b[..j] && b[j] in b[j..];
      assert multiset(b)[b[i]] == multiset(b[..j])[b[i]] + multiset(b[j..])[b[i]];
    }
  }

  lemma {:induction false} OnceEach(a: seq<nat>, x: nat)
    requires NoRepeats(a)
    ensures multiset(a)[x] <= 1
  {
    if a != [] {
      var n := |a| - 1;
      OnceEach(a[..n], x);
      assert a == a[..n] + [a[n]];
    }
  }

  /** One more group is done. */
  lemma GroupDone(before: seq<Symbol>, mid: seq<Symbol>, after: seq<Symbol>, ordinals: seq<nat>, todo: set<string>, key: string, sorted: seq<nat>)
    requires DoneExcept(before, mid, ordinals, todo) && key in todo && |after| == |before|
    requires multiset(sorted) == multiset(Indices(before, key))
    requires forall i :: 0 <= i < |sorted| ==> sorted[i] < |before|
    requires |sorted| >= 2 ==> ByRow(mid, sorted)
    requires forall k :: 0 <= k < |sorted| ==> after[sorted[k]] == if |sorted| < 2 then mid[sorted[k]] else Mark(mid[sorted[k]], k, |sorted|)
    requires forall i :: 0 <= i < |before| && i !in sorted ==> after[i] == mid[i]
    ensures DoneExcept(before, after, Numbering(ordinals, sorted), todo - {key})
  {
    hide KeyText, Indices, Mark, RowOf, RowLess;
    Members(before, key, sorted);
    var numbers := Numbering(ordinals, sorted);
    forall i | 0 <= i < |before| && KeyText(before[i]) == key
      ensures i in sorted && numbers[i] < |sorted| && sorted[numbers[i]] == i && mid[i] == before[i] && GroupSize(before, i) == |sorted|
    {
      PositionIs(sorted, i);
      assert IsDone(before, mid, ordinals, todo, i);
    }
    forall i | 0 <= i < |before|
      ensures IsDone(before, after, numbers, todo - {key}, i)
    {
      assert IsDone(before, mid, ordinals, todo, i);
    }
    forall i, j | 0 <= i < |before| && 0 <= j < |before| && i != j && KeyText(before[i]) == KeyText(before[j]) && KeyText(before[i]) !in todo - {key}
      ensures Numbered(before[i], before[j], numbers[i], numbers[j])
    {
      if KeyText(before[i]) == key {
        assert |sorted| >= 2;
        assert numbers[j] < numbers[i] ==> !RowLess(RowOf(mid[sorted[numbers[i]]]), RowOf(mid[sorted[numbers[j]]]));
      } else {
        assert Numbered(before[i], before[j], ordinals[i], ordinals[j]);
      }
    }
  }

  /** Numbers all exact duplicates, in place, the groups in any order. */
  method Disambiguate(symbols: array<Symbol>) returns (ghost ordinals: seq<nat>)
    modifies symbols
    ensures IsDisambiguated(old(symbols[..]), symbols[..], ordinals)
  {
    hide KeyText, Indices, Mark, Numbering, ByRow, DoneExcept, Numbered;
    ghost var before := symbols[..];
    var groups := GroupByKey(symbols);
    var todo := groups.Keys;
    ordinals := seq(symbols.Length, _ => 0);
    NothingDone(before, ordinals, todo);
    while todo != {}
      invariant todo <= groups.Keys
      invariant DoneExcept(before, symbols[..], ordinals, todo)
    {
      var key :| key in todo;
      var indices := groups[key];
      Members(before, key, indices);
      ghost var mid := symbols[..];
      var sorted := indices;
      if |indices| >= 2 {
        sorted := SortByRow(symbols[..], indices);
        Members(before, key, sorted);
        MarkGroup(symbols, sorted);
      }
      GroupDone(before, mid, symbols[..], ordinals, todo, key, sorted);
      ordinals := Numbering(ordinals, sorted);
      todo := todo - {key};
    }
    AllDone(before, symbols[..], ordinals);
  }

  lemma NothingDone(symbols: seq<Symbol>, ordinals: seq<nat>, todo: set<string>)
    requires |ordinals| == |symbols| && forall i :: 0 <= i < |symbols| ==> KeyText(symbols[i]) in todo
    ensures DoneExcept(symbols, symbols, ordinals, todo)
  {
  }

  lemma AllDone(before: seq<Symbol>, after: seq<Symbol>, ordinals: seq<nat>)
    requires DoneExcept(before, after, ordinals, {})
    ensures IsDisambiguated(before, after, ordinals)
  {
    hide Numbered, Indices, KeyText;
    forall i | 0 <= i < |before|
      ensures ordinals[i] < GroupSize(before, i) && after[i] == MarkIfDuplicate(before, i, ordinals[i])
    {
      assert IsDone(before, after, ordinals, {}, i);
    }
  }
}
