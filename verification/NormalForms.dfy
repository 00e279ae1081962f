/** What a normalised inventory is, said of its symbols one by one.
 */
module NormalForms {
  import opened Options
  import opened Sequences
  import opened Symbols
  import Strings

  /** t is s without the white space around it. */
  ghost predicate IsTrimmed(s: string, t: string) {
    && (exists before, after :: s == before + t + after && AreSpaces(before) && AreSpaces(after))
    && (t != "" ==> !Strings.IsSpace(t[0]) && !Strings.IsSpace(t[|t| - 1]))
  }

  predicate AreSpaces(s: string) {
    forall i :: 0 <= i < |s| ==> Strings.IsSpace(s[i])
  }

  /** By source, then file, then table, then row. */
  ghost predicate ProvenanceInOrder(a: Provenance, b: Provenance) {
    if a.sourceId != b.sourceId then Strings.StandsBefore(a.sourceId, b.sourceId)
    else if a.inputFile != b.inputFile then Strings.StandsBefore(a.inputFile, b.inputFile)
    else if a.table != b.table then Strings.StandsBefore(a.table, b.table)
    else a.row <= b.row
  }

  /** The text an ID is the hash of. */
  function IdentityText(s: Symbol): string {
    Strings.Join([s.sourceId, s.namespace, s.kind, s.nativeName, s.architecture, s.signature, IntText(s.genericArity), s.abiProfile], '\0') + ['\0']
  }

  /** A signature that is missing is made of the kind and the full name. */
  predicate IsSignature(s: Symbol, t: Symbol) {
    t.signature ==
      if s.signature != "" then s.signature
      else s.kind + " " + (if t.namespace == "" then t.nativeName else t.namespace + "." + t.nativeName)
  }

  /** t is the normal form of s: names are trimmed, there is a signature, the ID is that of
      the identity, the same provenance is in order, and nothing else has changed. */
  ghost predicate IsNormalForm(hash: string -> string, s: Symbol, t: Symbol) {
    && t == s.(namespace := t.namespace, nativeName := t.nativeName, signature := t.signature, id := t.id, provenance := t.provenance)
    && IsTrimmed(s.namespace, t.namespace) && IsTrimmed(s.nativeName, t.nativeName) && IsSignature(s, t)
    && t.id == hash(IdentityText(t))
    && multiset(t.provenance) == multiset(s.provenance)
    && (forall i, j :: 0 <= i < j < |t.provenance| ==> ProvenanceInOrder(t.provenance[i], t.provenance[j]))
  }

  /** Nothing that an ID is made of is missing, and the symbol has been classified. */
  predicate IsIdentified(t: Symbol) {
    t.sourceId != "" && t.kind != "" && t.nativeName != "" && t.architecture != "" && t.abiProfile != "" && t.complete
  }

  ghost predicate AreNormalForms(hash: string -> string, symbols: seq<Symbol>, normal: seq<Symbol>) {
    && |normal| == |symbols|
    && (forall i :: 0 <= i < |normal| ==> IsNormalForm(hash, symbols[i], normal[i]) && IsIdentified(normal[i]))
    && (forall i, j :: 0 <= i < j < |normal| ==> normal[i].id != normal[j].id)
  }

  /** The normal forms of the symbols, one for each, by ascending IDs. */
  ghost predicate IsNormalInventory(hash: string -> string, before: seq<Symbol>, after: seq<Symbol>) {
    && (exists order :: IsPermutation(order, |before|) && |after| == |before|
          && forall i :: 0 <= i < |after| ==> IsNormalForm(hash, before[order[i]], after[i]))
    && (forall i, j :: 0 <= i < j < |after| ==> Strings.StandsBefore(after[i].id, after[j].id))
  }
}
