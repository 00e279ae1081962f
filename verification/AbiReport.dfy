/** The report made from the filed decisions, and the totals over all architectures.
 */
module AbiReport {
  import opened Options
  import opened AbiCompare
  import opened AbiFacts
  import opened AbiBuilder
  import opened AbiMeaning
  import Sorting

  // ---- the report ----

  /** A symbol's line; complete when all its facts matched. */
  datatype Line = Line(symbol: string, complete: bool, facts: SymbolResult)

  function LineOf(symbol: string, r: SymbolResult): Line {
    Line(symbol, r.unmatched == [] && r.mismatched == [], r)
  }

  /** One line for every symbol, by ascending ID; so the order in which the symbols
      come out of their map leaves no trace. */
  ghost function LinesOf(symbols: map<string, SymbolResult>): seq<Line> {
    if symbols == map[] then []
    else
      var s := Sorting.Least(symbols.Keys);
      [LineOf(s, symbols[s])] + LinesOf(symbols - {s})
  }

  lemma {:induction false} EachLine(symbols: map<string, SymbolResult>, line: Line)
    requires line in LinesOf(symbols)
    ensures line.symbol in symbols && line == LineOf(line.symbol, symbols[line.symbol])
    decreases |symbols|
  {
    var s := Sorting.Least(symbols.Keys);
    if line != LineOf(s, symbols[s]) {
      EachLine(symbols - {s}, line);
    }
  }

  method Report(symbols: map<string, SymbolResult>) returns (lines: seq<Line>)
    ensures lines == LinesOf(symbols)
  {
    hide LinesOf, Sorting.Sorted;
    var ids := Sorting.Sort(symbols.Keys);
    lines := [];
    ghost var rest := symbols;
    for i := 0 to |ids|
      invariant ids[i..] == Sorting.Sorted(rest.Keys)
      invariant forall s :: s in rest ==> s in symbols && rest[s] == symbols[s]
      invariant lines + LinesOf(rest) == LinesOf(symbols)
    {
      var s := ids[i];
      NextLine(rest, ids[i..]);
      assert ids[i..][1..] == ids[i + 1..];
      lines := lines + [LineOf(s, symbols[s])];
      rest := rest - {s};
    }
    NoLinesLeft(rest);
  }

  lemma NoLinesLeft(rest: map<string, SymbolResult>)
    requires Sorting.Sorted(rest.Keys) == []
    ensures LinesOf(rest) == []
  {
    assert rest.Keys == {};
  }

  lemma NextLine(rest: map<string, SymbolResult>, ids: seq<string>)
    requires ids == Sorting.Sorted(rest.Keys) && ids != []
    ensures ids[0] in rest && ids[1..] == Sorting.Sorted((rest - {ids[0]}).Keys)
    ensures LinesOf(rest) == [LineOf(ids[0], rest[ids[0]])] + LinesOf(rest - {ids[0]})
  {
    assert (rest - {ids[0]}).Keys == rest.Keys - {ids[0]};
  }

  // ---- counts ----

  method CountMatched(lines: seq<Line>) returns (n: nat)
    ensures n == MatchedIn(lines)
  {
    n := 0;
    for i := 0 to |lines|
      invariant n == MatchedIn(lines[..i])
    {
      assert lines[..i + 1][..i] == lines[..i];
      n := n + |lines[i].facts.matched|;
    }
    assert lines[..|lines|] == lines;
  }

  function MatchedIn(lines: seq<Line>): nat {
    if lines == [] then 0 else MatchedIn(lines[..|lines| - 1]) + |lines[|lines| - 1].facts.matched|
  }

  /** The facts of a column, over all lines. */
  function LineFacts(lines: seq<Line>, column: Column): multiset<string> {
    if lines == [] then multiset{} else multiset(Facts(lines[0].facts, column)) + LineFacts(lines[1..], column)
  }

  lemma {:induction false} MatchedInCounts(lines: seq<Line>)
    ensures MatchedIn(lines) == |LineFacts(lines, MatchedColumn)|
  {
    if lines != [] {
      MatchedInCounts(lines[1..]);
      MatchedInFirst(lines);
      assert |multiset(lines[0].facts.matched)| == |lines[0].facts.matched|;
    }
  }

  lemma {:induction false} MatchedInFirst(lines: seq<Line>)
    requires lines != []
    ensures MatchedIn(lines) == |lines[0].facts.matched| + MatchedIn(lines[1..])
  {
    if |lines| > 1 {
      var n := |lines| - 1;
      MatchedInFirst(lines[..n]);
      assert lines[1..][..n - 1] == lines[..n][1..];
    }
  }

  /** The report shows everything that was filed. */
  lemma {:induction false} ReportShowsAll(symbols: map<string, SymbolResult>, column: Column)
    ensures LineFacts(LinesOf(symbols), column) == Gather(symbols, column)
    decreases |symbols|
  {
    if symbols != map[] {
      var s := Sorting.Least(symbols.Keys);
      GatherOne(symbols, column, s);
      ReportShowsAll(symbols - {s}, column);
      assert LinesOf(symbols)[0] == LineOf(s, symbols[s]) && LinesOf(symbols)[1..] == LinesOf(symbols - {s});
    }
  }

  /** How many facts a result holds, from the lengths of its lists. */
  method FactCount(o: OracleResult) returns (count: nat)
    ensures count == |AllFacts(Items(o))|
  {
    hide Items, AllFacts;
    count := |o.values| + |o.guids| + |o.vtables| + |o.conditions|;
    count := count + |o.bitFields| * 3;
    count := count + |o.functions| * 2;
    OthersCount(o);
    ghost var others := count;
    NoRecordFacts();
    for i := 0 to |o.records|
      invariant count == others + |AllFacts(RecordItems(o.records[..i]))|
    {
      OneRecordMore(o.records[..i], o.records[i]);
      assert o.records[..i + 1] == o.records[..i] + [o.records[i]];
      count := count + 2 + |o.records[i].fields|;
    }
    assert o.records[..|o.records|] == o.records;
  }

  lemma NoRecordFacts()
    ensures AllFacts(RecordItems([])) == []
  {
  }

  lemma OneRecordMore(records: seq<RecordResult>, r: RecordResult)
    ensures |AllFacts(RecordItems(records + [r]))| == |AllFacts(RecordItems(records))| + 2 + |r.fields|
  {
    var items := RecordItems(records + [r]);
    assert items[..|records|] == RecordItems(records);
    OffsetFactsLength(r, r.fields);
  }

  lemma {:induction false} OffsetFactsLength(record: RecordResult, fields: seq<FieldResult>)
    ensures |OffsetFacts(record, fields)| == |fields|
  {
    if fields != [] {
      OffsetFactsLength(record, fields[..|fields| - 1]);
    }
  }

  lemma {:induction false} AllFactsAppend(a: seq<Item>, b: seq<Item>)
    ensures AllFacts(a + b) == AllFacts(a) + AllFacts(b)
  {
    hide ItemFacts;
    if b == [] {
      assert a + b == a;
    } else {
      var n := |b| - 1;
      assert (a + b)[..|a| + n] == a + b[..n];
      assert (a + b)[|a| + n] == b[n];
      AllFactsAppend(a, b[..n]);
      assert AllFacts(a + b) == AllFacts(a) + AllFacts(b[..n]) + ItemFacts(b[n]);
    }
  }

  lemma {:induction false} AlikeCount(items: seq<Item>, each: nat)
    requires forall i :: 0 <= i < |items| ==> |ItemFacts(items[i])| == each
    ensures |AllFacts(items)| == each * |items|
  {
    hide ItemFacts;
    if items != [] {
      var n := |items| - 1;
      AlikeCount(items[..n], each);
      assert each * (n + 1) == each * n + each;
      assert |items[..n]| == n;
    }
  }

  lemma OthersCount(o: OracleResult)
    ensures |AllFacts(Items(o))|
         == |AllFacts(RecordItems(o.records))|
          + |o.values| + |o.guids| + |o.vtables| + |o.conditions| + |o.bitFields| * 3 + |o.functions| * 2
  {
    SmallItemsCount(o);
    hide AllFacts, RecordItems, ValueItems, GuidItems, BitFieldItems, FunctionItems, VTableItems, ConditionItems;
    var conditions, vtables, functions := ConditionItems(o.conditions), VTableItems(o.vtables), FunctionItems(o.functions);
    var bitFields, guids, values := BitFieldItems(o.bitFields), GuidItems(o.guids), ValueItems(o.values);
    AllFactsAppend(vtables, conditions);
    AllFactsAppend(functions, vtables + conditions);
    AllFactsAppend(bitFields, functions + (vtables + conditions));
    AllFactsAppend(guids, bitFields + (functions + (vtables + conditions)));
    AllFactsAppend(values, guids + (bitFields + (functions + (vtables + conditions))));
    AllFactsAppend(RecordItems(o.records), values + (guids + (bitFields + (functions + (vtables + conditions)))));
  }

  lemma SmallItemsCount(o: OracleResult)
    ensures |AllFacts(ValueItems(o.values))| == |o.values|
    ensures |AllFacts(GuidItems(o.guids))| == |o.guids|
    ensures |AllFacts(BitFieldItems(o.bitFields))| == 3 * |o.bitFields|
    ensures |AllFacts(FunctionItems(o.functions))| == 2 * |o.functions|
    ensures |AllFacts(VTableItems(o.vtables))| == |o.vtables|
    ensures |AllFacts(ConditionItems(o.conditions))| == |o.conditions|
  {
    hide AllFacts;
    AlikeCount(ValueItems(o.values), 1);
    AlikeCount(GuidItems(o.guids), 1);
    AlikeCount(BitFieldItems(o.bitFields), 3);
    AlikeCount(FunctionItems(o.functions), 2);
    AlikeCount(VTableItems(o.vtables), 1);
    AlikeCount(ConditionItems(o.conditions), 1);
  }

  // ---- a whole comparison ----

  datatype Comparison = Comparison(lines: seq<Line>, unmatched: seq<UnmatchedFact>, mismatches: seq<Mismatch>, mismatchedFacts: nat)

  /** What is promised of a comparison of the facts: each is matched once, unmatched
      once or mismatched once, and a complete symbol has matched facts and no
      others. */
  ghost predicate Conserves(c: Comparison, facts: seq<string>) {
    && LineFacts(c.lines, MatchedColumn) + multiset(FactIds(c.unmatched)) + LineFacts(c.lines, MismatchedColumn) == multiset(facts)
    && |LineFacts(c.lines, MismatchedColumn)| == c.mismatchedFacts
    && (forall line :: line in c.lines && line.complete ==> CompleteLine(line))
  }

  predicate CompleteLine(line: Line) {
    line.facts.matched != [] && line.facts.unmatched == [] && line.facts.mismatched == []
  }

  lemma ComparisonConserves(t: Tally, c: Comparison, log: seq<Entry>, facts: seq<string>)
    requires t == FileAll(log) && Fruitful(log) && multiset(FactsIn(log)) == multiset(facts)
    requires c.lines == LinesOf(t.symbols) && c.unmatched == t.unmatched && c.mismatchedFacts == t.mismatchedFacts
    ensures Conserves(c, facts)
  {
    hide FileAll, Gather, Fruitful, FactsIn, FactIds, MatchedIn;
    Conservation(log);
    ReportShowsAll(t.symbols, MatchedColumn);
    ReportShowsAll(t.symbols, MismatchedColumn);
    forall line | line in c.lines && line.complete
      ensures CompleteLine(line)
    {
      EachLine(t.symbols, line);
      EverySymbolHolds(log, line.symbol);
    }
  }

  /** So the three counts add up to the number of facts. */
  lemma ConservedCounts(c: Comparison, facts: seq<string>)
    requires Conserves(c, facts)
    ensures MatchedIn(c.lines) + |c.unmatched| + c.mismatchedFacts == |facts|
  {
    MatchedInCounts(c.lines);
    hide LineFacts, MatchedIn;
    assert |multiset(facts)| == |facts|;
    assert |multiset(FactIds(c.unmatched))| == |c.unmatched|;
  }

  /** Some record's offsets divide by zero. */
  ghost predicate Stops(inventory: seq<Symbol>, o: OracleResult) {
    exists i :: 0 <= i < |Items(o)| && Crashes(inventory, o.architecture, Items(o)[i])
  }

  /** The decisions about all measurements of one architecture, in order. */
  function Decisions(inventory: seq<Symbol>, probes: Probes, o: OracleResult): seq<Entry> {
    AllEntries(inventory, probes, o.architecture, Items(o))
  }

  /** The comparison of one architecture. */
  ghost function ComparisonOf(inventory: seq<Symbol>, probes: Probes, o: OracleResult): Comparison {
    var t := FileAll(Decisions(inventory, probes, o));
    Comparison(LinesOf(t.symbols), t.unmatched, t.mismatches, t.mismatchedFacts)
  }

  /** It shows as matched the facts that were decided to match, and as mismatched and
      unmatched those decided so, the lists in the order of the decisions. */
  lemma ComparisonShowsDecisions(inventory: seq<Symbol>, probes: Probes, o: OracleResult, column: Column)
    ensures var c, log := ComparisonOf(inventory, probes, o), Decisions(inventory, probes, o);
      && LineFacts(c.lines, column) == multiset(GainsIn(log, column))
      && c.unmatched == UnmatchedIn(log) && c.mismatches == MismatchesIn(log) && c.mismatchedFacts == |GainsIn(log, MismatchedColumn)|
  {
    hide FileAll, Decisions, LinesOf, LineFacts, GainsIn, UnmatchedIn, MismatchesIn, Gather;
    ColumnsAreDecided(Decisions(inventory, probes, o), column);
    ListsAreDecided(Decisions(inventory, probes, o));
    ReportShowsAll(FileAll(Decisions(inventory, probes, o)).symbols, column);
  }

  lemma ComparisonIsComplete(inventory: seq<Symbol>, probes: Probes, o: OracleResult)
    ensures Conserves(ComparisonOf(inventory, probes, o), AllFacts(Items(o)))
  {
    hide Items, FileAll, Conserves, Fruitful, FactsIn, AllFacts, LinesOf, AllEntries;
    var log := Decisions(inventory, probes, o);
    AllIsFiled(inventory, probes, o.architecture, Items(o));
    AllIsFruitful(inventory, probes, o.architecture, Items(o));
    ComparisonConserves(FileAll(log), ComparisonOf(inventory, probes, o), log, AllFacts(Items(o)));
  }

  /** The comparison is right: it has a line for every symbol that something is compared
      with; the facts listed there as matched, mismatched and unmatched are exactly those
      that agree with the symbol, differ from it and are not known of it; and mismatches
      show both sides. */
  ghost predicate IsRight(c: Comparison, inventory: seq<Symbol>, probes: Probes, o: OracleResult) {
    && (forall line, fact, v :: line in c.lines ==>
          (fact in ListOf(line.facts, v) <==> Tells(inventory, probes, o.architecture, Items(o), line.symbol, fact, v)))
    && (forall symbol :: HasLine(c, symbol) <==> IsLookedAt(inventory, probes, o.architecture, Items(o), symbol))
    && (forall m :: m in c.mismatches ==> AllShow(inventory, probes, o.architecture, Items(o), m))
  }

  ghost predicate HasLine(c: Comparison, symbol: string) {
    exists line :: line in c.lines && line.symbol == symbol
  }

  lemma {:induction false} LineForEach(symbols: map<string, SymbolResult>, symbol: string)
    requires symbol in symbols
    ensures LineOf(symbol, symbols[symbol]) in LinesOf(symbols)
    decreases |symbols|
  {
    var s := Sorting.Least(symbols.Keys);
    if s != symbol {
      LineForEach(symbols - {s}, symbol);
    }
  }

  lemma LinesAreOf(symbols: map<string, SymbolResult>, lines: seq<Line>)
    requires lines == LinesOf(symbols)
    ensures forall line :: line in lines ==> line.symbol in symbols && line.facts == symbols[line.symbol]
    ensures forall symbol :: symbol in symbols ==> exists line :: line in lines && line.symbol == symbol
  {
    forall line | line in lines
      ensures line.symbol in symbols && line.facts == symbols[line.symbol]
    {
      EachLine(symbols, line);
    }
    forall symbol | symbol in symbols
      ensures exists line :: line in lines && line.symbol == symbol
    {
      LineForEach(symbols, symbol);
    }
  }

  lemma ComparisonIsRight(inventory: seq<Symbol>, probes: Probes, o: OracleResult)
    ensures IsRight(ComparisonOf(inventory, probes, o), inventory, probes, o)
  {
    hide Items, FileAll, AllEntries, LinesOf, Tells, IsLookedAt, AllShow, MismatchesIn, ListOf;
    var c, log := ComparisonOf(inventory, probes, o), Decisions(inventory, probes, o);
    var t := FileAll(log);
    LinesAreOf(t.symbols, c.lines);
    ListsAreDecided(log);
    forall line, fact, v | line in c.lines
      ensures fact in ListOf(line.facts, v) <==> Tells(inventory, probes, o.architecture, Items(o), line.symbol, fact, v)
    {
      ListsTellTheTruth(inventory, probes, o.architecture, Items(o), line.symbol, fact, v);
    }
    forall symbol
      ensures symbol in t.symbols <==> IsLookedAt(inventory, probes, o.architecture, Items(o), symbol)
    {
      ListsTellTheTruth(inventory, probes, o.architecture, Items(o), symbol, "", Agrees);
    }
    forall m | m in c.mismatches
      ensures AllShow(inventory, probes, o.architecture, Items(o), m)
    {
      MismatchesShowTheTruth(inventory, probes, o.architecture, Items(o), m);
    }
  }

  /** A complete symbol agrees with every fact of every measurement compared with it. */
  lemma CompleteMeansAgreed(c: Comparison, inventory: seq<Symbol>, probes: Probes, o: OracleResult, line: Line, i: nat, k: nat, s: Symbol)
    requires IsRight(c, inventory, probes, o) && Conserves(c, AllFacts(Items(o))) && line in c.lines && line.complete
    requires i < |Items(o)| && LooksAt(inventory, probes, o.architecture, Items(o)[i], s) && s.id == line.symbol
    requires k < |ItemFacts(Items(o)[i])|
    ensures Compares(probes, o.architecture, Items(o)[i], k, s, true) && !Compares(probes, o.architecture, Items(o)[i], k, s, false)
  {
    hide Items, LooksAt, Compares, ItemFacts, LineFacts, AllFacts;
    var item := Items(o)[i];
    var fact := ItemFacts(item)[k];
    assert fact !in ListOf(line.facts, Differs) && fact !in ListOf(line.facts, Open);
    assert TellsAt(inventory, probes, o.architecture, item, k, s, line.symbol, fact, Differs) ==>
        Tells(inventory, probes, o.architecture, Items(o), line.symbol, fact, Differs);
    assert TellsAt(inventory, probes, o.architecture, item, k, s, line.symbol, fact, Open) ==>
        Tells(inventory, probes, o.architecture, Items(o), line.symbol, fact, Open);
  }

  /** Compares one architecture's measurements; None when the program stops on a
      division by zero. */
  method CompareInventory(inventory: seq<Symbol>, probes: Probes, o: OracleResult) returns (r: Option<Comparison>)
    ensures r == None <==> Stops(inventory, o)
    ensures r.Some? ==> r.value == ComparisonOf(inventory, probes, o) && Conserves(r.value, AllFacts(Items(o)))
    ensures r.Some? ==> IsRight(r.value, inventory, probes, o)
  {
    hide Items, FileAll, Crashes, ItemEntries, Conserves, AllFacts, LinesOf, IsRight;
    var items := Items(o);
    var b := new Builder();
    for i := 0 to |items|
      invariant b.Valid() && fresh(b) && b.log == AllEntries(inventory, probes, o.architecture, items[..i])
      invariant forall k :: 0 <= k < i ==> !Crashes(inventory, o.architecture, items[k])
    {
      assert items[..i + 1][..i] == items[..i];
      var ok := CompareItem(b, inventory, probes, o.architecture, items[i]);
      if !ok {
        return None;
      }
    }
    assert items[..|items|] == items;
    var lines := Report(b.symbols);
    r := Some(Comparison(lines, b.unmatched, b.mismatches, b.mismatchedFacts));
    ComparisonIsComplete(inventory, probes, o);
    ComparisonIsRight(inventory, probes, o);
  }

  // ---- totals over architectures ----

  datatype Summary = Summary(facts: int, matched: int, unmatched: int, mismatched: int)

  /** The four counts of one architecture's comparison. */
  ghost function SummaryOf(inventory: seq<Symbol>, probes: Probes, o: OracleResult): Summary {
    var c := ComparisonOf(inventory, probes, o);
    Summary(|AllFacts(Items(o))|, |LineFacts(c.lines, MatchedColumn)|, |c.unmatched|, |LineFacts(c.lines, MismatchedColumn)|)
  }

  predicate Balanced(s: Summary) {
    s.facts == s.matched + s.unmatched + s.mismatched
  }

  function Plus(s: Summary, t: Summary): Summary {
    Summary(s.facts + t.facts, s.matched + t.matched, s.unmatched + t.unmatched, s.mismatched + t.mismatched)
  }

  /** The sums over the architectures. */
  ghost function SummaryOfAll(inventory: seq<Symbol>, probes: Probes, oracles: seq<OracleResult>): Summary {
    if oracles == [] then Summary(0, 0, 0, 0)
    else
      var n := |oracles| - 1;
      Plus(SummaryOfAll(inventory, probes, oracles[..n]), SummaryOf(inventory, probes, oracles[n]))
  }

  lemma SummaryIsBalanced(inventory: seq<Symbol>, probes: Probes, o: OracleResult)
    ensures Balanced(SummaryOf(inventory, probes, o))
    ensures MatchedIn(ComparisonOf(inventory, probes, o).lines) == SummaryOf(inventory, probes, o).matched
    ensures ComparisonOf(inventory, probes, o).mismatchedFacts == SummaryOf(inventory, probes, o).mismatched
  {
    ComparisonIsComplete(inventory, probes, o);
    hide ComparisonOf, Items, AllFacts, LineFacts, MatchedIn, FactIds;
    var c := ComparisonOf(inventory, probes, o);
    MatchedInCounts(c.lines);
    ConservedCounts(c, AllFacts(Items(o)));
  }

  lemma {:induction false} SumsAreBalanced(inventory: seq<Symbol>, probes: Probes, oracles: seq<OracleResult>)
    ensures Balanced(SummaryOfAll(inventory, probes, oracles))
  {
    hide SummaryOf;
    if oracles != [] {
      SumsAreBalanced(inventory, probes, oracles[..|oracles| - 1]);
      SummaryIsBalanced(inventory, probes, oracles[|oracles| - 1]);
    }
  }

  /** Compares one architecture and counts. */
  method Summarize(inventory: seq<Symbol>, probes: Probes, o: OracleResult) returns (s: Option<Summary>)
    ensures s == None <==> Stops(inventory, o)
    ensures s.Some? ==> s.value == SummaryOf(inventory, probes, o) && Balanced(s.value)
  {
    hide Items, AllFacts, Stops, LineFacts, MatchedIn, ComparisonOf, Conserves;
    var c := CompareInventory(inventory, probes, o);
    if c == None {
      return None;
    }
    SummaryIsBalanced(inventory, probes, o);
    var matched := CountMatched(c.value.lines);
    var facts := FactCount(o);
    s := Some(Summary(facts, matched, |c.value.unmatched|, c.value.mismatchedFacts));
  }

  /** The totals are sums: nothing for no architecture, one architecture's counts for one,
      and for two lists the counts of both. */
  lemma {:induction false} TotalsAreSums(inventory: seq<Symbol>, probes: Probes, a: seq<OracleResult>, b: seq<OracleResult>)
    ensures SummaryOfAll(inventory, probes, []) == Summary(0, 0, 0, 0)
    ensures forall o :: SummaryOfAll(inventory, probes, [o]) == SummaryOf(inventory, probes, o)
    ensures var s, x, y := SummaryOfAll(inventory, probes, a + b), SummaryOfAll(inventory, probes, a), SummaryOfAll(inventory, probes, b);
      s == Summary(x.facts + y.facts, x.matched + y.matched, x.unmatched + y.unmatched, x.mismatched + y.mismatched)
  {
    hide SummaryOf;
    forall o
      ensures SummaryOfAll(inventory, probes, [o]) == SummaryOf(inventory, probes, o)
    {
      assert [o][..0] == [];
    }
    if b == [] {
      assert a + b == a;
    } else {
      var n := |b| - 1;
      assert (a + b)[..|a| + n] == a + b[..n] && (a + b)[|a| + n] == b[n];
      TotalsAreSums(inventory, probes, a, b[..n]);
    }
  }

  /** Compares every architecture, then adds up the summaries. */
  method Run(inventory: seq<Symbol>, probes: Probes, oracles: seq<OracleResult>) returns (total: Option<Summary>)
    ensures total == None <==> exists k :: 0 <= k < |oracles| && Stops(inventory, oracles[k])
    ensures total.Some? ==> total.value == SummaryOfAll(inventory, probes, oracles) && Balanced(total.value)
  {
    hide Stops, SummaryOf;
    var summaries := [];
    for i := 0 to |oracles|
      invariant |summaries| == i && forall k :: 0 <= k < i ==> !Stops(inventory, oracles[k])
      invariant forall k :: 0 <= k < i ==> summaries[k] == SummaryOf(inventory, probes, oracles[k])
    {
      var s := Summarize(inventory, probes, oracles[i]);
      if s == None {
        return None;
      }
      summaries := summaries + [s.value];
    }
    var sum := Summary(0, 0, 0, 0);
    for i := 0 to |summaries|
      invariant sum == SummaryOfAll(inventory, probes, oracles[..i])
    {
      assert oracles[..i + 1][..i] == oracles[..i];
      sum := Plus(sum, summaries[i]);
    }
    assert oracles[..|oracles|] == oracles;
    SumsAreBalanced(inventory, probes, oracles);
    total := Some(sum);
  }
}
