/** Inventory symbols and the texts that identify them.
 */
module Symbols {
  import opened Options
  import opened Decimal
  import Strings

  datatype Provenance = Provenance(sourceId: string, inputFile: string, table: string, row: nat, header: string)

  /** The place among exact duplicates, and how many there are. */
  datatype Duplicate = Duplicate(ordinal: nat, count: nat)

  /** complete says that status, reasons and backend are filled in; details is
      whatever else the symbol carries. */
  datatype Symbol = Symbol(
    id: string, sourceId: string, namespace: string, kind: string, nativeName: string, architecture: string,
    abiProfile: string, signature: string, genericArity: int, provenance: seq<Provenance>, duplicate: Option<Duplicate>,
    complete: bool, details: string)

  const NUL: char := '\0'

  function IntText(n: int): string {
    if n < 0 then "-" + Numeral(-n) else Numeral(n)
  }

  lemma IntTextIsInjective(a: int, b: int)
    requires IntText(a) == IntText(b)
    ensures a == b
  {
    var x, y := if a < 0 then -a else a, if b < 0 then -b else b;
    assert IsDigit(Numeral(x)[0]) && IsDigit(Numeral(y)[0]);
    assert IntText(a)[0] == IntText(b)[0];
    assert a < 0 ==> IntText(a)[1..] == Numeral(x);
    assert b < 0 ==> IntText(b)[1..] == Numeral(y);
    assert Numeral(x) == Numeral(y);
    NumeralDenotes(x);
    NumeralDenotes(y);
  }

  /** The eight parts of a symbol's identity. */
  function KeyParts(s: Symbol): seq<string> {
    [s.sourceId, s.namespace, s.kind, s.nativeName, s.architecture, s.signature, IntText(s.genericArity), s.abiProfile]
  }

  function KeyText(s: Symbol): string {
    Strings.Join(KeyParts(s), NUL)
  }

  predicate NulFree(s: Symbol) {
    NUL !in s.sourceId && NUL !in s.namespace && NUL !in s.kind && NUL !in s.nativeName && NUL !in s.architecture
    && NUL !in s.signature && NUL !in s.abiProfile
  }

  lemma NumeralIsNulFree(n: nat)
    ensures NUL !in Numeral(n)
  {
    forall i | 0 <= i < |Numeral(n)|
      ensures Numeral(n)[i] != NUL
    {
      assert IsDigit(Numeral(n)[i]);
    }
  }

  lemma PartsAreNulFree(s: Symbol)
    requires NulFree(s)
    ensures forall i :: 0 <= i < |KeyParts(s)| ==> NUL !in KeyParts(s)[i]
  {
    NumeralIsNulFree(if s.genericArity < 0 then -s.genericArity else s.genericArity);
  }

  /** Without NULs, the text tells the parts apart. */
  lemma KeyTextIsInjective(a: Symbol, b: Symbol)
    requires NulFree(a) && NulFree(b)
    ensures KeyText(a) == KeyText(b) <==> KeyParts(a) == KeyParts(b)
  {
    hide Strings.Join, Strings.Split, KeyParts;
    PartsAreNulFree(a);
    PartsAreNulFree(b);
    EightParts(a);
    EightParts(b);
    Strings.SplitJoined(KeyParts(a), NUL);
    Strings.SplitJoined(KeyParts(b), NUL);
  }

  lemma EightParts(s: Symbol)
    ensures KeyParts(s) != []
  {
  }

  /** The parts tell the identities apart. */
  lemma SameKeySameIdentity(a: Symbol, b: Symbol)
    requires KeyParts(a) == KeyParts(b)
    ensures a.sourceId == b.sourceId && a.namespace == b.namespace && a.kind == b.kind && a.nativeName == b.nativeName
    ensures a.architecture == b.architecture && a.signature == b.signature && a.genericArity == b.genericArity && a.abiProfile == b.abiProfile
  {
    hide IntText;
    var x, y := KeyParts(a), KeyParts(b);
    assert x[0] == y[0] && x[1] == y[1] && x[2] == y[2] && x[3] == y[3];
    assert x[4] == y[4] && x[5] == y[5] && x[6] == y[6] && x[7] == y[7];
    IntTextIsInjective(a.genericArity, b.genericArity);
  }
}
