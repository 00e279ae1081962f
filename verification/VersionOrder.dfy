/** Which of two versions is lower, told from their texts, and that both comparators
    say so.
 */
module VersionOrder {
  import opened Options
  import opened Orders
  import opened Decimal
  import opened VersionTexts
  import Strings
  import N = NuGetVersions
  import U = NuGetUpdates
  import O = OverrideVersions

  // ---- the order of texts ----

  /** The number at a place; those not written are zero. */
  ghost function NumberAt(t: VersionText, i: nat): nat {
    if i < |t.numbers| && AllDigits(t.numbers[i]) then ValueOf(t.numbers[i]) else 0
  }

  ghost predicate SameNumbers(s: VersionText, t: VersionText) {
    forall i: nat :: NumberAt(s, i) == NumberAt(t, i)
  }

  ghost predicate SameUpTo(s: VersionText, t: VersionText, k: nat) {
    forall i: nat :: i < k ==> NumberAt(s, i) == NumberAt(t, i)
  }

  /** The first number that differs is lower. */
  ghost predicate NumbersBelow(s: VersionText, t: VersionText) {
    exists k: nat :: SameUpTo(s, t, k) && NumberAt(s, k) < NumberAt(t, k)
  }

  /** s is lower than t: by the numbers; if these are the same, by having labels where t
      has none, or by the labels as in a lexicon. */
  ghost predicate Below(lower: (string, string) -> bool, s: VersionText, t: VersionText) {
    NumbersBelow(s, t) || (SameNumbers(s, t) && LabelsBelow(lower, s.labels, t.labels))
  }

  // ---- labels ----

  /** Numbers by what they denote, and below all other labels; these by their
      characters. */
  ghost predicate LowerLabel(a: string, b: string) {
    if AreDigits(a) && AreDigits(b) then ValueOf(a) < ValueOf(b)
    else AreDigits(a) || (!AreDigits(b) && Strings.StandsBefore(a, b))
  }

  predicate AreDigits(s: string) {
    s != "" && forall i :: 0 <= i < |s| ==> '0' <= s[i] <= '9'
  }

  /** The same without regard to case. */
  ghost predicate NuGetLabel(a: string, b: string) {
    LowerLabel(Strings.ToLower(a), Strings.ToLower(b))
  }

  lemma NuGetLabelsCompare(a: string, b: string)
    ensures U.CompareLabels(a, b) < 0 <==> LowerLabel(a, b)
    ensures U.CompareLabels(a, b) > 0 <==> LowerLabel(b, a)
  {
    if AreDigits(a) && AreDigits(b) {
      U.NumericLabelsCompareAsNumbers(a, b);
    }
    Strings.CompareMeans(a, b);
    Strings.CompareMeans(b, a);
    Strings.CompareIsAntisymmetric(a, b);
    hide Strings.Compare, Strings.StandsBefore, ValueOf, TrimZeros;
  }

  /** Digits after an optional sign, if the number is one of 64 bits. */
  ghost predicate IsInt(s: string, n: int) {
    && -0x8000_0000_0000_0000 <= n < 0x8000_0000_0000_0000
    && ((AreDigits(s) && n == ValueOf(s))
        || (s != "" && s[0] == '+' && AreDigits(s[1..]) && n == ValueOf(s[1..]))
        || (s != "" && s[0] == '-' && AreDigits(s[1..]) && -n == ValueOf(s[1..])))
  }

  ghost predicate HasInt(s: string) {
    exists n :: IsInt(s, n)
  }

  lemma IntsAreRead(s: string)
    ensures forall n :: IsInt(s, n) <==> O.Atoi(s) == Some(n)
    ensures HasInt(s) <==> O.Atoi(s).Some?
  {
    hide ValueOf;
    if O.Atoi(s).Some? {
      assert IsInt(s, O.Atoi(s).value);
    }
  }

  /** Ints by their value, and below all other labels; these by their characters. */
  ghost predicate OverrideLabel(a: string, b: string) {
    if HasInt(a) && HasInt(b) then exists m, n :: IsInt(a, m) && IsInt(b, n) && m < n
    else HasInt(a) || (!HasInt(b) && Strings.StandsBefore(a, b))
  }

  lemma OverrideLabelsCompare(a: string, b: string)
    ensures O.CompareLabels(a, b) < 0 <==> OverrideLabel(a, b)
    ensures O.CompareLabels(a, b) > 0 <==> OverrideLabel(b, a)
  {
    IntsAreRead(a);
    IntsAreRead(b);
    Strings.CompareMeans(a, b);
    Strings.CompareMeans(b, a);
    Strings.CompareIsAntisymmetric(a, b);
    hide O.Atoi, IsInt, HasInt, Strings.Compare, Strings.StandsBefore;
  }

  // ---- what is read of a text ----

  predicate IsLabelText(s: string) {
    s != "" && forall i :: 0 <= i < |s| ==> '0' <= s[i] <= '9' || 'a' <= s[i] <= 'z' || 'A' <= s[i] <= 'Z' || s[i] == '-'
  }

  predicate IsWord(s: string) {
    AreDigits(s) && ValueOf(s) < 0x8000_0000_0000_0000
  }

  /** One to four numbers of at most 31 bits, labels of letters, digits and hyphens. */
  predicate IsNuGet(t: VersionText) {
    && |Write(t)| <= 1024 && 1 <= |t.numbers| <= 4
    && (forall i :: 0 <= i < |t.numbers| ==> AreDigits(t.numbers[i]) && ValueOf(t.numbers[i]) < 0x8000_0000)
    && (forall i :: 0 <= i < |t.labels| ==> IsLabelText(t.labels[i]))
    && (t.metadata.Some? ==>
          forall i :: 0 <= i < |Strings.Split(t.metadata.value, '.')| ==> IsLabelText(Strings.Split(t.metadata.value, '.')[i]))
  }

  /** Any count of numbers of at most 63 bits, labels of anything. */
  predicate IsOverride(t: VersionText) {
    && (forall i :: 0 <= i < |t.numbers| ==> IsWord(t.numbers[i]))
    && (forall i :: 0 <= i < |t.labels| ==> t.labels[i] != "")
  }

  /** The list holds the numbers of the text, and zeros. */
  ghost predicate HoldsNumbers(numbers: seq<int>, t: VersionText) {
    forall i: nat :: NumberAt(t, i) == if i < |numbers| then numbers[i] else 0
  }

  lemma {:induction false} NumbersRead(pieces: seq<string>)
    ensures N.Numbers(pieces).Some? <==> forall i :: 0 <= i < |pieces| ==> AreDigits(pieces[i]) && ValueOf(pieces[i]) < 0x8000_0000
  {
    hide ValueOf;
    if pieces != [] {
      NumbersRead(pieces[..|pieces| - 1]);
    }
  }

  lemma {:induction false} CoreRead(pieces: seq<string>)
    requires forall i :: 0 <= i < |pieces| ==> '-' !in pieces[i] && '+' !in pieces[i]
    ensures O.Core(pieces).Some? <==> forall i :: 0 <= i < |pieces| ==> IsWord(pieces[i])
    ensures O.Core(pieces).Some? ==>
      |O.Core(pieces).value| == |pieces| && forall i :: 0 <= i < |pieces| ==> IsWord(pieces[i]) && O.Core(pieces).value[i] == ValueOf(pieces[i])
  {
    hide ValueOf, O.Atoi, HasInt, IsWord;
    if pieces != [] {
      var last := pieces[|pieces| - 1];
      CoreRead(pieces[..|pieces| - 1]);
      UnsignedInt(last);
    }
  }

  lemma UnsignedInt(s: string)
    requires '-' !in s && '+' !in s
    ensures O.Atoi(s) == if IsWord(s) then Some(ValueOf(s)) else None
  {
    hide ValueOf;
    assert s != "" ==> s[0] in s;
  }

  lemma LabelsRead(labels: seq<string>)
    ensures N.AreLabels(labels) <==> forall i :: 0 <= i < |labels| ==> IsLabelText(labels[i])
  {
    assert forall s :: IsLabelText(s) <==> N.IsLabel(s);
    hide IsLabelText, N.IsLabel;
  }

  lemma NuGetParts(raw: string)
    ensures var t := TextOf(raw);
      && Strings.Split(N.NumericText(raw), '.') == t.numbers && N.Labels(raw) == t.labels
      && (N.MetadataIsValid(raw) <==> t.metadata == None || N.AreLabels(Strings.Split(t.metadata.value, '.')))
  {
    hide Strings.Cut, Strings.Split, N.AreLabels;
  }

  lemma NotEmptyText(raw: string)
    ensures raw == "" ==> TextOf(raw).numbers == [""]
    ensures IsNuGet(TextOf(raw)) ==> raw != ""
  {
    hide Write, IsLabelText;
    if raw == "" {
      assert Strings.Cut(raw, '+') == (raw, None) && Strings.Cut(raw, '-') == (raw, None) && Strings.Split(raw, '.') == [raw];
      assert TextOf(raw).numbers[0] == raw;
    }
  }

  /** NuGet reads exactly the texts of that form, and of them the numbers and the lowered
      labels. */
  lemma NuGetReads(raw: string)
    ensures N.Parse(raw).Some? <==> IsNuGet(TextOf(raw))
    ensures N.Parse(raw).Some? ==>
      var v, t := N.Parse(raw).value, TextOf(raw);
      HoldsNumbers(v.numbers, t) && |v.numbers| == 4 && v.labels == N.LowerAll(t.labels)
  {
    EveryTextIsWritten(raw);
    NotEmptyText(raw);
    NuGetParts(raw);
    var t := TextOf(raw);
    NumbersRead(t.numbers);
    N.NumbersEach(t.numbers);
    LabelsRead(t.labels);
    if t.metadata.Some? {
      LabelsRead(Strings.Split(t.metadata.value, '.'));
    }
    hide Write, ValueOf, TextOf, Strings.Cut, Strings.Split, N.Numbers, N.LowerAll, N.NumericText, N.Labels, N.MetadataIsValid, N.AreLabels, IsLabelText;
  }

  lemma OverrideReads(raw: string)
    ensures O.Parse(raw).Some? <==> IsOverride(TextOf(raw))
    ensures O.Parse(raw).Some? ==> HoldsNumbers(O.Parse(raw).value.numbers, TextOf(raw)) && O.Parse(raw).value.labels == TextOf(raw).labels
  {
    EveryTextIsWritten(raw);
    CoreRead(TextOf(raw).numbers);
    hide Write, ValueOf, Strings.Cut, Strings.Split, O.Core;
  }

  // ---- both comparators ----

  lemma NumbersCompare(a: seq<int>, b: seq<int>, s: VersionText, t: VersionText)
    requires |a| == |b| && HoldsNumbers(a, s) && HoldsNumbers(b, t)
    ensures Lexicographic(LowerNumber, a, b) <==> NumbersBelow(s, t)
    ensures a == b <==> SameNumbers(s, t)
  {
    hide NumberAt;
    if k: nat :| k <= |a| && k < |b| && FirstDifference(LowerNumber, a, b, k) {
      assert forall i: nat :: i < k ==> !LowerNumber(a[i], b[i]) && !LowerNumber(b[i], a[i]);
      assert SameUpTo(s, t, k) && NumberAt(s, k) < NumberAt(t, k);
    }
    if k: nat :| SameUpTo(s, t, k) && NumberAt(s, k) < NumberAt(t, k) {
      assert k < |a|;
      assert forall i: nat :: i < k ==> a[i] == NumberAt(s, i) == NumberAt(t, i) == b[i];
      assert FirstDifference(LowerNumber, a, b, k);
    }
    if SameNumbers(s, t) {
      forall i: nat | i < |a|
        ensures a[i] == b[i]
      {
        assert NumberAt(s, i) == NumberAt(t, i);
      }
    }
  }

  lemma PaddedHolds(numbers: seq<int>, t: VersionText, n: nat)
    requires HoldsNumbers(numbers, t)
    ensures HoldsNumbers(Pad(numbers, n), t)
  {
    hide NumberAt;
  }

  lemma {:induction false} EachIsLowered(labels: seq<string>)
    ensures |N.LowerAll(labels)| == |labels|
    ensures forall i :: 0 <= i < |labels| ==> N.LowerAll(labels)[i] == Strings.ToLower(labels[i])
  {
    hide Strings.ToLower;
    if labels != [] {
      EachIsLowered(labels[1..]);
    }
  }

  lemma LoweredLabels(a: seq<string>, b: seq<string>)
    ensures LabelsBelow(LowerLabel, N.LowerAll(a), N.LowerAll(b)) <==> LabelsBelow(NuGetLabel, a, b)
  {
    EachIsLowered(a);
    EachIsLowered(b);
    hide LowerLabel, Strings.ToLower, N.LowerAll;
    var x, y := N.LowerAll(a), N.LowerAll(b);
    forall k: nat | k <= |a| && k < |b|
      ensures FirstDifference(LowerLabel, x, y, k) <==> FirstDifference(NuGetLabel, a, b, k)
    {
      assert forall i :: 0 <= i < |a| && i < |b| ==> (LowerLabel(x[i], y[i]) <==> NuGetLabel(a[i], b[i]));
      assert forall i :: 0 <= i < |a| && i < |b| ==> (LowerLabel(y[i], x[i]) <==> NuGetLabel(b[i], a[i]));
    }
  }

  lemma NuGetSigns()
    ensures SignOf(U.CompareLabels, LowerLabel)
  {
    forall x, y
      ensures (LowerLabel(x, y) <==> U.CompareLabels(x, y) < 0) && (LowerLabel(y, x) <==> U.CompareLabels(x, y) > 0)
    {
      NuGetLabelsCompare(x, y);
    }
  }

  lemma OverrideSigns()
    ensures SignOf(O.CompareLabels, OverrideLabel)
  {
    forall x, y
      ensures (OverrideLabel(x, y) <==> O.CompareLabels(x, y) < 0) && (OverrideLabel(y, x) <==> O.CompareLabels(x, y) > 0)
    {
      OverrideLabelsCompare(x, y);
    }
  }

  /** NuGet's comparison of any two versions has the sign that their texts tell. */
  lemma NuGetOrder(a: string, b: string)
    requires N.Parse(a).Some? && N.Parse(b).Some?
    ensures U.Compare(N.Parse(a).value, N.Parse(b).value) < 0 <==> Below(NuGetLabel, TextOf(a), TextOf(b))
    ensures U.Compare(N.Parse(a).value, N.Parse(b).value) > 0 <==> Below(NuGetLabel, TextOf(b), TextOf(a))
  {
    NuGetBelow(a, b);
    NuGetBelow(b, a);
    U.PrecedenceIsPreorder();
    hide N.Parse, U.Compare, Below, TextOf;
  }

  lemma NuGetBelow(a: string, b: string)
    requires N.Parse(a).Some? && N.Parse(b).Some?
    ensures U.Compare(N.Parse(a).value, N.Parse(b).value) < 0 <==> Below(NuGetLabel, TextOf(a), TextOf(b))
  {
    NuGetReads(a);
    NuGetReads(b);
    var v, w, s, t := N.Parse(a).value, N.Parse(b).value, TextOf(a), TextOf(b);
    NumbersCompare(v.numbers, w.numbers, s, t);
    LoweredLabels(s.labels, t.labels);
    NuGetSigns();
    hide N.Parse, TextOf, CompareRanked, IsNuGet, HoldsNumbers, SignOf, LabelsBelow, Lexicographic, NumbersBelow, SameNumbers;
    RankedMeans(U.CompareLabels, LowerLabel, v, w);
  }

  /** The comparison of bounds, likewise. */
  lemma OverrideOrder(a: string, b: string)
    requires O.Parse(a).Some? && O.Parse(b).Some?
    ensures O.CompareTexts(a, b).Some?
    ensures O.CompareTexts(a, b).value < 0 <==> Below(OverrideLabel, TextOf(a), TextOf(b))
    ensures O.CompareTexts(a, b).value > 0 <==> Below(OverrideLabel, TextOf(b), TextOf(a))
  {
    OverrideBelow(a, b);
    OverrideBelow(b, a);
    O.PrecedenceIsPreorder();
    hide O.Parse, O.Compare, Below, TextOf;
  }

  lemma OverrideBelow(a: string, b: string)
    requires O.Parse(a).Some? && O.Parse(b).Some?
    ensures O.Compare(O.Parse(a).value, O.Parse(b).value) < 0 <==> Below(OverrideLabel, TextOf(a), TextOf(b))
  {
    OverrideReads(a);
    OverrideReads(b);
    var v, w, s, t := O.Parse(a).value, O.Parse(b).value, TextOf(a), TextOf(b);
    var n := O.Longer(v, w);
    PaddedHolds(v.numbers, s, n);
    PaddedHolds(w.numbers, t, n);
    NumbersCompare(Pad(v.numbers, n), Pad(w.numbers, n), s, t);
    OverrideSigns();
    hide O.Parse, TextOf, CompareRanked, IsOverride, HoldsNumbers, SignOf, LabelsBelow, Lexicographic, NumbersBelow, SameNumbers, Pad;
    RankedMeans(O.CompareLabels, OverrideLabel, Ranked(Pad(v.numbers, n), v.labels), Ranked(Pad(w.numbers, n), w.labels));
  }

  // ---- what follows for versions as they are written ----

  /** A version with labels is below the one with the same numbers and none. */
  lemma ReleaseIsHigher(s: VersionText, t: VersionText)
    requires IsVersionText(s) && IsVersionText(t) && SameNumbers(s, t) && s.labels != [] && t.labels == []
    ensures IsNuGet(s) && IsNuGet(t) ==>
      N.Parse(Write(s)).Some? && N.Parse(Write(t)).Some? && U.Compare(N.Parse(Write(s)).value, N.Parse(Write(t)).value) < 0
    ensures IsOverride(s) && IsOverride(t) ==> O.CompareTexts(Write(s), Write(t)).Some? && O.CompareTexts(Write(s), Write(t)).value < 0
  {
    assert Below(NuGetLabel, s, t) && Below(OverrideLabel, s, t);
    BelowIsLess(s, t);
  }

  /** The first number that differs decides, whatever the labels. */
  lemma NumbersDecide(s: VersionText, t: VersionText, k: nat)
    requires IsVersionText(s) && IsVersionText(t) && SameUpTo(s, t, k) && NumberAt(s, k) < NumberAt(t, k)
    ensures IsNuGet(s) && IsNuGet(t) ==>
      N.Parse(Write(s)).Some? && N.Parse(Write(t)).Some? && U.Compare(N.Parse(Write(s)).value, N.Parse(Write(t)).value) < 0
    ensures IsOverride(s) && IsOverride(t) ==> O.CompareTexts(Write(s), Write(t)).Some? && O.CompareTexts(Write(s), Write(t)).value < 0
  {
    hide NumberAt;
    assert Below(NuGetLabel, s, t) && Below(OverrideLabel, s, t);
    BelowIsLess(s, t);
  }

  /** More labels after the same ones are higher. */
  lemma MoreLabelsAreHigher(s: VersionText, t: VersionText)
    requires IsVersionText(s) && IsVersionText(t) && SameNumbers(s, t) && s.labels != [] && s.labels < t.labels
    ensures IsNuGet(s) && IsNuGet(t) ==>
      N.Parse(Write(s)).Some? && N.Parse(Write(t)).Some? && U.Compare(N.Parse(Write(s)).value, N.Parse(Write(t)).value) < 0
    ensures IsOverride(s) && IsOverride(t) ==> O.CompareTexts(Write(s), Write(t)).Some? && O.CompareTexts(Write(s), Write(t)).value < 0
  {
    forall a: string
      ensures !NuGetLabel(a, a) && !OverrideLabel(a, a)
    {
      NotBelowItself(a);
    }
    hide NuGetLabel, OverrideLabel;
    assert FirstDifference(NuGetLabel, s.labels, t.labels, |s.labels|);
    assert FirstDifference(OverrideLabel, s.labels, t.labels, |s.labels|);
    assert Below(NuGetLabel, s, t) && Below(OverrideLabel, s, t);
    BelowIsLess(s, t);
  }

  lemma NotBelowItself(a: string)
    ensures !NuGetLabel(a, a) && !OverrideLabel(a, a)
  {
    NuGetLabelsCompare(Strings.ToLower(a), Strings.ToLower(a));
    OverrideLabelsCompare(a, a);
    hide U.CompareLabels, O.CompareLabels, LowerLabel, OverrideLabel;
  }

  lemma BelowIsLess(s: VersionText, t: VersionText)
    requires IsVersionText(s) && IsVersionText(t)
    ensures IsNuGet(s) && IsNuGet(t) ==>
      && N.Parse(Write(s)).Some? && N.Parse(Write(t)).Some?
      && (U.Compare(N.Parse(Write(s)).value, N.Parse(Write(t)).value) < 0 <==> Below(NuGetLabel, s, t))
    ensures IsOverride(s) && IsOverride(t) ==>
      O.CompareTexts(Write(s), Write(t)).Some? && (O.CompareTexts(Write(s), Write(t)).value < 0 <==> Below(OverrideLabel, s, t))
  {
    OnlyWrittenOnce(s);
    OnlyWrittenOnce(t);
    NuGetReads(Write(s));
    NuGetReads(Write(t));
    OverrideReads(Write(s));
    OverrideReads(Write(t));
    hide Write, TextOf, IsNuGet, IsOverride, N.Parse, O.Parse, Below, HoldsNumbers, U.Compare, O.Compare;
    if IsNuGet(s) && IsNuGet(t) {
      NuGetOrder(Write(s), Write(t));
    }
    if IsOverride(s) && IsOverride(t) {
      OverrideOrder(Write(s), Write(t));
    }
  }

  // ---- what follows for updates and ranges ----

  lemma StableMeans(raw: string)
    requires N.Parse(raw).Some?
    ensures N.Parse(raw).value.labels == [] <==> TextOf(raw).labels == []
  {
    NuGetReads(raw);
    EachIsLowered(TextOf(raw).labels);
    hide N.Parse, TextOf, IsNuGet, HoldsNumbers;
  }

  lemma NotAboveMeans(current: string, other: string, raw: string)
    requires N.Parse(current).Some? && N.Parse(raw).Some? && U.NotAbove(N.Parse(current).value, N.Parse(other), N.Parse(raw).value)
    requires TextOf(current).labels == [] ==> TextOf(other).labels == []
    ensures !Below(NuGetLabel, TextOf(raw), TextOf(other))
  {
    hide N.Parse, TextOf, Below, U.Compare;
    StableMeans(current);
    StableMeans(other);
    NuGetOrder(raw, other);
    U.PrecedenceIsPreorder();
    assert U.Compare(N.Parse(raw).value, N.Parse(other).value) == -U.Compare(N.Parse(other).value, N.Parse(raw).value);
  }

  /** Of a selected update, on the texts: it is in the list or is the pin; it is stable if
      the pin is; it is not below the pin, nor below anything in the list that is stable
      if the pin is. */
  lemma SelectedIsHighest(current: string, versions: seq<string>, raw: string)
    requires U.IsBest(current, versions, raw)
    ensures raw == current || (raw in versions && Below(NuGetLabel, TextOf(current), TextOf(raw)))
    ensures TextOf(current).labels == [] ==> TextOf(raw).labels == []
    ensures forall other :: other in versions && (TextOf(current).labels == [] ==> TextOf(other).labels == []) ==>
      !Below(NuGetLabel, TextOf(raw), TextOf(other))
  {
    hide N.Parse, TextOf, Below, U.Compare, U.NotAbove, U.FirstAt;
    StableMeans(current);
    StableMeans(raw);
    NuGetOrder(raw, current);
    forall other | other in versions && (TextOf(current).labels == [] ==> TextOf(other).labels == [])
      ensures !Below(NuGetLabel, TextOf(raw), TextOf(other))
    {
      var i :| 0 <= i < |versions| && versions[i] == other;
      NotAboveMeans(current, versions[i], raw);
    }
  }

  /** A pin with labels is never kept when a version with its numbers and without labels
      is in the list. */
  lemma ReleaseIsTaken(current: string, versions: seq<string>, raw: string, release: string)
    requires U.IsBest(current, versions, raw) && release in versions
    requires SameNumbers(TextOf(current), TextOf(release)) && TextOf(current).labels != [] && TextOf(release).labels == []
    ensures raw != current
  {
    SelectedIsHighest(current, versions, raw);
    hide U.IsBest, TextOf, NumberAt;
    assert Below(NuGetLabel, TextOf(current), TextOf(release));
  }

  /** A version is in a range exactly when it is not below the one bound, nor the other
      below it. */
  lemma RangeMeans(r: O.Range, version: string)
    requires O.Parse(version).Some? && O.Parse(r.minInclusive).Some? && O.Parse(r.maxInclusive).Some?
    ensures O.Contains(r, version)
      == Some(!Below(OverrideLabel, TextOf(version), TextOf(r.minInclusive)) && !Below(OverrideLabel, TextOf(r.maxInclusive), TextOf(version)))
  {
    OverrideOrder(version, r.minInclusive);
    OverrideOrder(version, r.maxInclusive);
    hide O.Parse, TextOf, Below, O.Compare;
  }

  /** A preview is left for its release. */
  lemma PreviewExample()
    ensures var preview, release := VersionText(["71", "0", "26"], ["preview"], None), VersionText(["71", "0", "26"], [], None);
      && Write(preview) == "71.0.26-preview" && Write(release) == "71.0.26"
      && N.Parse("71.0.26-preview").Some? && N.Parse("71.0.26").Some?
      && U.Compare(N.Parse("71.0.26-preview").value, N.Parse("71.0.26").value) < 0
      && O.CompareTexts("71.0.26-preview", "71.0.26").Some? && O.CompareTexts("71.0.26-preview", "71.0.26").value < 0
  {
    var preview, release := VersionText(["71", "0", "26"], ["preview"], None), VersionText(["71", "0", "26"], [], None);
    ExampleTexts();
    hide Write, N.Parse, U.Compare, O.Parse, O.Compare, IsNuGet, IsOverride;
    ReleaseIsHigher(preview, release);
  }

  lemma ExampleTexts()
    ensures Write(VersionText(["71", "0", "26"], ["preview"], None)) == "71.0.26-preview"
    ensures Write(VersionText(["71", "0", "26"], [], None)) == "71.0.26"
    ensures IsNuGet(VersionText(["71", "0", "26"], ["preview"], None)) && IsNuGet(VersionText(["71", "0", "26"], [], None))
    ensures IsOverride(VersionText(["71", "0", "26"], ["preview"], None)) && IsOverride(VersionText(["71", "0", "26"], [], None))
  {
    ExampleJoins();
    ExampleValues();
    hide Strings.Join, ValueOf;
  }

  lemma ExampleJoins()
    ensures Strings.Join(["71", "0", "26"], '.') == "71.0.26" && Strings.Join(["preview"], '.') == "preview"
  {
    assert ["71", "0", "26"][1..] == ["0", "26"] && ["0", "26"][1..] == ["26"];
    assert Strings.Join(["0", "26"], '.') == "0.26";
  }

  lemma ExampleValues()
    ensures ValueOf("71") == 71 && ValueOf("0") == 0 && ValueOf("26") == 26
  {
    assert "71"[..1] == "7" && "26"[..1] == "2" && "7"[..0] == "" && "2"[..0] == "" && "0"[..0] == "";
    assert ValueOf("7") == 7 && ValueOf("2") == 2;
  }
}
