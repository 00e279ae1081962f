/** Versions as they are written: numbers between dots, then labels after a hyphen, then
    metadata after a plus sign.
 */
module VersionTexts {
  import opened Options
  import opened Decimal
  import Strings

  datatype VersionText = VersionText(numbers: seq<string>, labels: seq<string>, metadata: Option<string>)

  function WriteRelease(t: VersionText): string {
    Strings.Join(t.numbers, '.') + if t.labels == [] then "" else ['-'] + Strings.Join(t.labels, '.')
  }

  function Write(t: VersionText): string {
    WriteRelease(t) + if t.metadata == None then "" else ['+'] + t.metadata.value
  }

  /** No separator stands where it would be read as one. */
  predicate IsVersionText(t: VersionText) {
    && t.numbers != []
    && (forall i :: 0 <= i < |t.numbers| ==> '.' !in t.numbers[i] && '-' !in t.numbers[i] && '+' !in t.numbers[i])
    && (forall i :: 0 <= i < |t.labels| ==> '.' !in t.labels[i] && '+' !in t.labels[i])
  }

  /** What a text is written from. */
  function TextOf(raw: string): VersionText {
    var (release, metadata) := Strings.Cut(raw, '+');
    var (numbers, labels) := Strings.Cut(release, '-');
    VersionText(Strings.Split(numbers, '.'), if labels == None then [] else Strings.Split(labels.value, '.'), metadata)
  }

  /** Every text is written from its parts. */
  lemma EveryTextIsWritten(raw: string)
    ensures IsVersionText(TextOf(raw)) && Write(TextOf(raw)) == raw
  {
    var (release, metadata) := Strings.Cut(raw, '+');
    var (numbers, labels) := Strings.Cut(release, '-');
    Strings.CutParts(raw, '+');
    Strings.CutParts(release, '-');
    Strings.JoinSplit(numbers, '.');
    assert '+' !in release && '-' !in numbers && '+' !in numbers;
    Strings.SplitLacks(numbers, '.', '.');
    Strings.SplitLacks(numbers, '.', '-');
    Strings.SplitLacks(numbers, '.', '+');
    hide Strings.Cut, Strings.Join, Strings.Split;
    if labels.Some? {
      assert '+' !in labels.value;
      Strings.JoinSplit(labels.value, '.');
      Strings.SplitLacks(labels.value, '.', '.');
      Strings.SplitLacks(labels.value, '.', '+');
    }
  }

  lemma NumbersOnly(t: VersionText)
    requires IsVersionText(t)
    ensures '-' !in Strings.Join(t.numbers, '.') && '+' !in Strings.Join(t.numbers, '.')
    ensures '+' !in WriteRelease(t)
  {
    Strings.JoinLacks(t.numbers, '.', '-');
    Strings.JoinLacks(t.numbers, '.', '+');
    Strings.JoinLacks(t.labels, '.', '+');
  }

  /** And from no others. */
  lemma OnlyWrittenOnce(t: VersionText)
    requires IsVersionText(t)
    ensures TextOf(Write(t)) == t
  {
    var numbers, labels := Strings.Join(t.numbers, '.'), if t.labels == [] then None else Some(Strings.Join(t.labels, '.'));
    NumbersOnly(t);
    Strings.SplitJoined(t.numbers, '.');
    if t.labels != [] {
      Strings.SplitJoined(t.labels, '.');
    }
    hide Strings.Cut, Strings.Join, Strings.Split;
    Strings.CutAt(WriteRelease(t), '+', t.metadata);
    Strings.CutAt(numbers, '-', labels);
  }
}
