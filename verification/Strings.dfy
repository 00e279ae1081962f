/** Byte strings: comparing, cutting, splitting.
 */
module Strings {
  import opened Options

  /** -1, 0 or 1, by the first difference; a proper prefix comes first. */
  function Compare(a: string, b: string): (c: int)
    ensures c == -1 || c == 0 || c == 1
  {
    if a == [] && b == [] then 0
    else if a == [] then -1
    else if b == [] then 1
    else if a[0] < b[0] then -1
    else if a[0] > b[0] then 1
    else Compare(a[1..], b[1..])
  }

  predicate Less(a: string, b: string) {
    Compare(a, b) < 0
  }

  lemma {:induction false} CompareIsZero(a: string, b: string)
    ensures Compare(a, b) == 0 <==> a == b
  {
    if a != [] && b != [] && a[0] == b[0] {
      CompareIsZero(a[1..], b[1..]);
      assert a == [a[0]] + a[1..] && b == [b[0]] + b[1..];
    }
  }

  lemma {:induction false} CompareIsAntisymmetric(a: string, b: string)
    ensures Compare(a, b) == -Compare(b, a)
  {
    if a != [] && b != [] && a[0] == b[0] {
      CompareIsAntisymmetric(a[1..], b[1..]);
    }
  }

  lemma {:induction false} CompareIsTransitive(a: string, b: string, c: string)
    requires Compare(a, b) <= 0 && Compare(b, c) <= 0
    ensures Compare(a, c) <= 0
    ensures Compare(a, c) == 0 ==> Compare(a, b) == 0 && Compare(b, c) == 0
  {
    if a != [] && b != [] && c != [] && a[0] == b[0] && b[0] == c[0] {
      CompareIsTransitive(a[1..], b[1..], c[1..]);
    }
  }

  /** a stands before b: all alike up to some place where a has the lower character, or
      ends. */
  ghost predicate StandsBefore(a: string, b: string) {
    exists k: nat :: k <= |a| && k < |b| && a[..k] == b[..k] && (k == |a| || a[k] < b[k])
  }

  lemma BeforeInTail(a: string, b: string)
    requires a != [] && b != [] && a[0] == b[0]
    ensures StandsBefore(a, b) <==> StandsBefore(a[1..], b[1..])
  {
    var x, y := a[1..], b[1..];
    if k: nat :| k <= |a| && k < |b| && a[..k] == b[..k] && (k == |a| || a[k] < b[k]) {
      assert k > 0;
      assert x[..k - 1] == a[..k][1..] && y[..k - 1] == b[..k][1..];
    }
    if k: nat :| k <= |x| && k < |y| && x[..k] == y[..k] && (k == |x| || x[k] < y[k]) {
      assert a[..k + 1] == [a[0]] + x[..k] && b[..k + 1] == [b[0]] + y[..k];
    }
  }

  lemma {:induction false} CompareMeans(a: string, b: string)
    ensures Compare(a, b) < 0 <==> StandsBefore(a, b)
  {
    if a == [] {
      assert a[..0] == b[..0];
    } else if b != [] {
      assert a[..0] == b[..0];
      if a[0] == b[0] {
        BeforeInTail(a, b);
        CompareMeans(a[1..], b[1..]);
      } else {
        forall k: nat | 0 < k <= |a| && k < |b|
          ensures a[..k] != b[..k]
        {
          assert a[..k][0] != b[..k][0];
        }
      }
    }
  }

  /** s ends with suffix. */
  predicate HasSuffix(s: string, suffix: string) {
    |s| >= |suffix| && s[|s| - |suffix|..] == suffix
  }

  /** What stands before the first c, and what stands after it if there is one. */
  function Cut(s: string, c: char): (string, Option<string>) {
    if s == [] then ("", None)
    else if s[0] == c then ("", Some(s[1..]))
    else
      var (before, after) := Cut(s[1..], c);
      ([s[0]] + before, after)
  }

  lemma {:induction false} CutOff(before: string, c: char, after: string)
    requires c !in before
    ensures Cut(before + [c] + after, c) == (before, Some(after))
    ensures Cut(before, c) == (before, None)
  {
    var s := before + [c] + after;
    if before == [] {
      assert s == [c] + after;
      assert s[1..] == after;
    } else {
      CutOff(before[1..], c, after);
      assert s[1..] == before[1..] + [c] + after;
      assert before == [before[0]] + before[1..];
    }
  }

  /** The pieces between the separators; always at least one. */
  function Split(s: string, c: char): (pieces: seq<string>)
    ensures pieces != []
  {
    if s == [] then [""]
    else if s[0] == c then [""] + Split(s[1..], c)
    else
      var rest := Split(s[1..], c);
      [[s[0]] + rest[0]] + rest[1..]
  }

  function Join(pieces: seq<string>, c: char): string {
    if pieces == [] then "" else if |pieces| == 1 then pieces[0] else pieces[0] + [c] + Join(pieces[1..], c)
  }

  lemma {:induction false} SplitPiece(piece: string, c: char, rest: string)
    requires c !in piece
    ensures Split(piece + [c] + rest, c) == [piece] + Split(rest, c)
    ensures Split(piece, c) == [piece]
  {
    var s := piece + [c] + rest;
    if piece == [] {
      assert s == [c] + rest;
      assert s[1..] == rest;
    } else {
      SplitPiece(piece[1..], c, rest);
      assert s[1..] == piece[1..] + [c] + rest;
      assert piece == [piece[0]] + piece[1..];
    }
  }

  /** Splitting undoes joining. */
  lemma {:induction false} SplitJoined(pieces: seq<string>, c: char)
    requires pieces != [] && forall i :: 0 <= i < |pieces| ==> c !in pieces[i]
    ensures Split(Join(pieces, c), c) == pieces
  {
    if |pieces| == 1 {
      SplitPiece(pieces[0], c, "");
    } else {
      SplitJoined(pieces[1..], c);
      SplitPiece(pieces[0], c, Join(pieces[1..], c));
    }
  }

  lemma CutAt(before: string, c: char, after: Option<string>)
    requires c !in before
    ensures Cut(before + (if after == None then "" else [c] + after.value), c) == (before, after)
  {
    CutOff(before, c, if after == None then "" else after.value);
    hide Cut;
    if after == None {
      assert before + "" == before;
    } else {
      assert before + ([c] + after.value) == before + [c] + after.value;
    }
  }

  /** What a cut leaves, put together again. */
  lemma {:induction false} CutParts(s: string, c: char)
    ensures var (before, after) := Cut(s, c);
      && c !in before && s == before + (if after == None then "" else [c] + after.value)
      && (forall x :: x in before ==> x in s) && (after.Some? ==> forall x :: x in after.value ==> x in s)
  {
    if s != "" && s[0] != c {
      CutParts(s[1..], c);
      assert s == [s[0]] + s[1..];
    } else if s != "" {
      assert s == [c] + s[1..];
    }
  }

  lemma JoinLongerFirst(x: string, pieces: seq<string>, c: char)
    requires pieces != []
    ensures Join([x + pieces[0]] + pieces[1..], c) == x + Join(pieces, c)
  {
    var longer := [x + pieces[0]] + pieces[1..];
    assert longer[1..] == pieces[1..];
    if |pieces| > 1 {
      var tail := Join(pieces[1..], c);
      assert (x + pieces[0]) + [c] + tail == x + (pieces[0] + [c] + tail);
    }
  }

  /** Joining undoes splitting. */
  lemma {:induction false} JoinSplit(s: string, c: char)
    ensures Join(Split(s, c), c) == s
  {
    if s != "" {
      var rest := Split(s[1..], c);
      JoinSplit(s[1..], c);
      assert s == [s[0]] + s[1..];
      if s[0] == c {
        assert ([""] + rest)[1..] == rest;
        assert Join([""] + rest, c) == [c] + Join(rest, c);
      } else {
        JoinLongerFirst([s[0]], rest, c);
      }
    }
  }

  /** No piece has a separator, or anything that was not split. */
  lemma {:induction false} SplitLacks(s: string, c: char, d: char)
    requires d == c || d !in s
    ensures forall i :: 0 <= i < |Split(s, c)| ==> d !in Split(s, c)[i]
  {
    if s != "" {
      SplitLacks(s[1..], c, d);
    }
  }

  lemma {:induction false} JoinLacks(pieces: seq<string>, separator: char, c: char)
    requires c != separator && forall i :: 0 <= i < |pieces| ==> c !in pieces[i]
    ensures c !in Join(pieces, separator)
  {
    if |pieces| > 1 {
      JoinLacks(pieces[1..], separator, c);
    }
  }

  function Lower(c: char): char {
    if 'A' <= c <= 'Z' then ('a' as int + (c as int - 'A' as int)) as char else c
  }

  function ToLower(s: string): string {
    if s == "" then "" else [Lower(s[0])] + ToLower(s[1..])
  }

  predicate OccursAt(s: string, part: string, i: nat) {
    i + |part| <= |s| && s[i..i + |part|] == part
  }

  predicate Contains(s: string, part: string) {
    exists i: nat :: i <= |s| && OccursAt(s, part, i)
  }

  /** White space, as Unicode has it. */
  predicate IsSpace(c: char) {
    c in "\t\n\U{00000B}\U{00000C}\r \U{000085}\U{0000A0}\U{001680}\U{002028}\U{002029}\U{00202F}\U{00205F}\U{003000}"
    || '\U{002000}' <= c <= '\U{00200A}'
  }

  function TrimLeft(s: string): string {
    if s != "" && IsSpace(s[0]) then TrimLeft(s[1..]) else s
  }

  function TrimRight(s: string): string {
    if s != "" && IsSpace(s[|s| - 1]) then TrimRight(s[..|s| - 1]) else s
  }

  function Trim(s: string): string {
    TrimRight(TrimLeft(s))
  }
}
