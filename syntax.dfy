/**
 * The compiled syntax tables of src/api/tokenizer.c (`struct rule`,
 * `struct syntax`, `struct symbol`), the `strcmp` order the symbol table is
 * sorted by, and the parts of `f_new_syntax` that decide their shape.
 */
module Syntax {
  import opened Bytes

  /** A compiled pattern: Lua-style text, or a regular expression handed to an external engine. */
  datatype Pattern = Lua(text: Bytes) | Regex(source: Bytes)

  /**
   * A rule: the pattern that opens it, the optional end and escape patterns
   * (a rule with an end pattern is stateful), the labels of its captures,
   * and an optional subsyntax given as an index into the grammar's table.
   */
  datatype Rule = Rule(enter: Pattern, end: Option<Pattern>, escape: Option<Pattern>,
                       labels: seq<Bytes>, subsyntax: Option<nat>)

  /** A keyword override: a span whose text is `key` is labelled `value`. */
  datatype Symbol = Symbol(key: Bytes, value: Bytes)

  datatype Syntax = Syntax(rules: seq<Rule>, maxStateful: nat, symbols: seq<Symbol>)

  /** All syntaxes a root syntax can reach; subsyntaxes refer to each other by index. */
  datatype Grammar = Grammar(syntaxes: seq<Syntax>)

  // ---------------------------------------------------------------------
  // The `strcmp` order (line 43)

  /** `strcmp` on NUL-free strings, comparing bytes as unsigned values: -1, 0 or 1. */
  function Compare(a: Bytes, b: Bytes): (c: int)
    ensures -1 <= c <= 1
  {
    if a == [] && b == [] then 0
    else if a == [] then -1
    else if b == [] then 1
    else if a[0] < b[0] then -1
    else if a[0] > b[0] then 1
    else Compare(a[1..], b[1..])
  }

  lemma {:induction false} CompareZero(a: Bytes, b: Bytes)
    ensures Compare(a, b) == 0 <==> a == b
  {
    if a != [] && b != [] && a[0] == b[0] {
      CompareZero(a[1..], b[1..]);
      assert a == [a[0]] + a[1..] && b == [b[0]] + b[1..];
    }
  }

  lemma {:induction false} CompareAntisymmetric(a: Bytes, b: Bytes)
    ensures Compare(a, b) == -Compare(b, a)
  {
    if a != [] && b != [] && a[0] == b[0] {
      CompareAntisymmetric(a[1..], b[1..]);
    }
  }

  lemma {:induction false} CompareTransitive(a: Bytes, b: Bytes, c: Bytes)
    requires Compare(a, b) <= 0 && Compare(b, c) <= 0
    ensures Compare(a, c) <= 0
  {
    if a != [] && b != [] && c != [] && a[0] == b[0] && b[0] == c[0] {
      CompareTransitive(a[1..], b[1..], c[1..]);
    }
  }

  lemma {:induction false} CompareStrictTransitive(a: Bytes, b: Bytes, c: Bytes)
    requires Compare(a, b) < 0 && Compare(b, c) <= 0
    ensures Compare(a, c) < 0
  {
    CompareTransitive(a, b, c);
    if Compare(a, c) == 0 {
      CompareZero(a, c);
      CompareAntisymmetric(a, b);
      CompareZero(b, c);
    }
  }

  /** The symbol keys are in strictly increasing `strcmp` order, which binary search relies on. */
  predicate SortedKeys(symbols: seq<Symbol>) {
    forall i, j :: 0 <= i < j < |symbols| ==> Compare(symbols[i].key, symbols[j].key) < 0
  }

  // ---------------------------------------------------------------------
  // Well-formed tables

  /** The last rule whose pattern came as a table, plus one; 0 when there is none. */
  function StatefulEnd(fromTable: seq<bool>): (n: nat)
    ensures n <= |fromTable|
    ensures n > 0 ==> fromTable[n - 1]
    ensures forall i :: n <= i < |fromTable| ==> !fromTable[i]
  {
    if fromTable == [] then 0
    else if fromTable[|fromTable| - 1] then |fromTable|
    else StatefulEnd(fromTable[..|fromTable| - 1])
  }

  predicate ValidPattern(p: Pattern) {
    p.Lua? ==> NoNul(p.text)
  }

  /** Labels are kept in 16-byte fields (line 18), so each must be shorter than 16 bytes. */
  predicate ValidLabel(l: Bytes) {
    |l| < 16 && NoNul(l)
  }

  predicate ValidRule(r: Rule, syntaxCount: nat) {
    && ValidPattern(r.enter)
    && (r.end.Some? ==> ValidPattern(r.end.value))
    && (r.escape.Some? ==> r.escape.value.Lua? && ValidPattern(r.escape.value))
    && 1 <= |r.labels| < 256
    && (forall j :: 0 <= j < |r.labels| ==> ValidLabel(r.labels[j]))
    && (r.subsyntax.Some? ==> r.subsyntax.value < syntaxCount)
  }

  /** Keys sit in 64-byte fields and values in 16-byte fields (lines 31-32). */
  predicate ValidSymbol(s: Symbol) {
    |s.key| < 64 && NoNul(s.key) && ValidLabel(s.value)
  }

  predicate ValidSyntax(s: Syntax, syntaxCount: nat) {
    && |s.rules| < 256
    && s.maxStateful <= |s.rules|
    && (forall i :: 0 <= i < |s.rules| ==> ValidRule(s.rules[i], syntaxCount))
    && (forall i :: 0 <= i < |s.symbols| ==> ValidSymbol(s.symbols[i]))
    && SortedKeys(s.symbols)
  }

  predicate ValidGrammar(g: Grammar) {
    forall i :: 0 <= i < |g.syntaxes| ==> ValidSyntax(g.syntaxes[i], |g.syntaxes|)
  }

  // ---------------------------------------------------------------------
  // Building a syntax (the structural part of `f_new_syntax`)

  /** The value of a rule's `pattern` or `regex` field: one string or a table of up to three. */
  datatype PatternField = Single(text: Bytes) | Table(texts: seq<Bytes>)

  /** A rule as the host describes it. `pattern` and `regex` are `None` when the field is nil. */
  datatype RuleSpec = RuleSpec(pattern: Option<PatternField>, regex: Option<PatternField>,
                               labels: seq<Bytes>, subsyntax: Option<nat>)

  datatype BuildError = UnparseableRule(index: nat)

  datatype Result<T> = Ok(value: T) | Err(error: BuildError)

  predicate ValidSpec(r: RuleSpec, syntaxCount: nat) {
    && (r.pattern.Some? ==> FieldShape(r.pattern.value))
    && (r.pattern.None? && r.regex.Some? ==> FieldShape(r.regex.value))
    && 1 <= |r.labels| < 256
    && (forall j :: 0 <= j < |r.labels| ==> ValidLabel(r.labels[j]))
    && (r.subsyntax.Some? ==> r.subsyntax.value < syntaxCount)
  }

  /** A table gives the enter pattern and at most an end and an escape pattern. */
  predicate FieldShape(f: PatternField) {
    f.Table? ==> 1 <= |f.texts| <= 3
  }

  /**
   * One compiled pattern: a Lua pattern keeps the bytes before the first
   * NUL (it is copied with `strncpy`, line 386).
   */
  function MakePattern(text: Bytes, regex: bool): (p: Pattern)
    ensures ValidPattern(p) && p.Regex? == regex
  {
    if regex then Regex(text) else Lua(CString(text))
  }

  function Slot(texts: seq<Bytes>, j: nat, regex: bool): (p: Option<Pattern>)
    ensures p.Some? <==> j < |texts|
    ensures p.Some? ==> ValidPattern(p.value)
  {
    if j < |texts| then Some(MakePattern(texts[j], regex)) else None
  }

  /** The field a rule is read from: `pattern`, or `regex` when `pattern` is nil. */
  function Field(spec: RuleSpec): PatternField
    requires spec.pattern.Some? || spec.regex.Some?
  {
    if spec.pattern.Some? then spec.pattern.value else spec.regex.value
  }

  /** Whether the field a rule is read from is a table (what line 432 tests). */
  predicate FromTable(spec: RuleSpec) {
    if spec.pattern.Some? then spec.pattern.value.Table? else spec.regex.Some? && spec.regex.value.Table?
  }

  /**
   * Lines 420-439 and 441-458 for one rule: read `pattern`, or else `regex`,
   * or fail as an unparseable rule. Only the first two entries of a table
   * may be regular expressions: the escape slot is always a Lua pattern
   * (line 435). Returns the rule and whether its pattern came as a table.
   */
  function MakeRule(spec: RuleSpec, index: nat, syntaxCount: nat): (r: Result<(Rule, bool)>)
    requires ValidSpec(spec, syntaxCount)
    ensures r.Err? <==> spec.pattern.None? && spec.regex.None?
    ensures r.Err? ==> r.error == UnparseableRule(index)
    ensures r.Ok? ==> ValidRule(r.value.0, syntaxCount)
    ensures r.Ok? ==> r.value.1 == FromTable(spec)
    ensures r.Ok? ==> r.value.0.labels == spec.labels && r.value.0.subsyntax == spec.subsyntax
    ensures r.Ok? && Field(spec).Single? ==>
      var (rule, regex) := (r.value.0, spec.pattern.None?);
      rule.enter == MakePattern(Field(spec).text, regex) && rule.end.None? && rule.escape.None?
    ensures r.Ok? && Field(spec).Table? ==>
      var (rule, regex, texts) := (r.value.0, spec.pattern.None?, Field(spec).texts);
      && Some(rule.enter) == Slot(texts, 0, regex)
      && rule.end == Slot(texts, 1, regex)
      && rule.escape == Slot(texts, 2, false)
  {
    if spec.pattern.None? && spec.regex.None? then Err(UnparseableRule(index))
    else
      var regex := spec.pattern.None?;
      match Field(spec)
      case Single(text) =>
        Ok((Rule(MakePattern(text, regex), None, None, spec.labels, spec.subsyntax), false))
      case Table(texts) =>
        Ok((Rule(Slot(texts, 0, regex).value, Slot(texts, 1, regex), Slot(texts, 2, false),
                 spec.labels, spec.subsyntax), true))
  }

  /** Lines 419-482: the rules in order, stopping at the first unparseable one. */
  function MakeRules(specs: seq<RuleSpec>, syntaxCount: nat): (r: Result<seq<(Rule, bool)>>)
    requires forall i :: 0 <= i < |specs| ==> ValidSpec(specs[i], syntaxCount)
    ensures r.Ok? ==> |r.value| == |specs|
    ensures r.Ok? ==> forall i :: 0 <= i < |specs| ==> ValidRule(r.value[i].0, syntaxCount)
    ensures r.Ok? ==> forall i :: 0 <= i < |specs| ==> MakeRule(specs[i], i, syntaxCount) == Ok(r.value[i])
    ensures r.Err? ==>
      && r.error.index < |specs|
      && MakeRule(specs[r.error.index], r.error.index, syntaxCount) == Err(r.error)
      && forall i :: 0 <= i < r.error.index ==> MakeRule(specs[i], i, syntaxCount).Ok?
    ensures (forall i :: 0 <= i < |specs| ==> MakeRule(specs[i], i, syntaxCount).Ok?) ==> r.Ok?
  {
    if specs == [] then Ok([])
    else
      var n := |specs| - 1;
      match MakeRules(specs[..n], syntaxCount)
      case Err(e) => Err(e)
      case Ok(front) =>
        match MakeRule(specs[n], n, syntaxCount)
        case Err(e) => Err(e)
        case Ok(last) => Ok(front + [last])
  }

  /** Every key in `symbols` is above `k`. */
  predicate Below(k: Bytes, symbols: seq<Symbol>) {
    forall i :: 0 <= i < |symbols| ==> Compare(k, symbols[i].key) < 0
  }

  lemma SortedCons(x: Symbol, rest: seq<Symbol>)
    requires SortedKeys(rest) && Below(x.key, rest)
    ensures SortedKeys([x] + rest)
  {
    assert forall i :: 0 < i <= |rest| ==> ([x] + rest)[i] == rest[i - 1];
  }

  /** Insert a symbol before the first entry with a larger key. */
  function Insert(s: Symbol, sorted: seq<Symbol>): (r: seq<Symbol>)
    ensures |r| == |sorted| + 1
  {
    if sorted == [] || Compare(s.key, sorted[0].key) < 0 then [s] + sorted
    else [sorted[0]] + Insert(s, sorted[1..])
  }

  lemma {:induction false} InsertPermutes(s: Symbol, sorted: seq<Symbol>)
    ensures multiset(Insert(s, sorted)) == multiset(sorted) + multiset{s}
  {
    if sorted != [] && Compare(s.key, sorted[0].key) >= 0 {
      InsertPermutes(s, sorted[1..]);
      assert sorted == [sorted[0]] + sorted[1..];
    }
  }

  /** Inserting a new key keeps the keys sorted, and keeps every lower bound below `s.key`. */
  lemma {:induction false} InsertSorted(s: Symbol, sorted: seq<Symbol>)
    requires SortedKeys(sorted)
    requires forall i :: 0 <= i < |sorted| ==> sorted[i].key != s.key
    ensures SortedKeys(Insert(s, sorted))
    ensures forall k :: Below(k, sorted) && Compare(k, s.key) < 0 ==> Below(k, Insert(s, sorted))
  {
    if sorted == [] {
    } else if Compare(s.key, sorted[0].key) < 0 {
      assert Below(s.key, sorted) by {
        forall j | 0 < j < |sorted| ensures Compare(s.key, sorted[j].key) < 0 {
          CompareStrictTransitive(s.key, sorted[0].key, sorted[j].key);
        }
      }
      SortedCons(s, sorted);
    } else {
      assert Compare(sorted[0].key, s.key) < 0 by {
        CompareAntisymmetric(s.key, sorted[0].key);
        CompareZero(s.key, sorted[0].key);
      }
      var tail := sorted[1..];
      assert Below(sorted[0].key, tail);
      InsertSorted(s, tail);
      var rest := Insert(s, tail);
      SortedCons(sorted[0], rest);
      forall k | Below(k, sorted) && Compare(k, s.key) < 0 ensures Below(k, Insert(s, sorted)) {
        assert Below(k, tail);
      }
    }
  }

  /** All keys are different. */
  predicate DistinctKeys(symbols: seq<Symbol>) {
    forall i, j :: 0 <= i < j < |symbols| ==> symbols[i].key != symbols[j].key
  }

  /** The last key is none of the keys sorted before it. */
  lemma FreshKey(symbols: seq<Symbol>, front: seq<Symbol>)
    requires DistinctKeys(symbols) && |symbols| > 0
    requires multiset(front) == multiset(symbols[..|symbols| - 1])
    ensures forall i :: 0 <= i < |front| ==> front[i].key != symbols[|symbols| - 1].key
  {
    var n := |symbols| - 1;
    forall i | 0 <= i < |front| ensures front[i].key != symbols[n].key {
      assert front[i] in multiset(symbols[..n]);
      var m :| 0 <= m < n && symbols[..n][m] == front[i];
    }
  }

  /**
   * The `qsort` of line 503: the symbols in increasing key order. Any
   * correct sort gives this result, as the keys are distinct.
   */
  function SortSymbols(symbols: seq<Symbol>): (r: seq<Symbol>)
    requires DistinctKeys(symbols)
    ensures SortedKeys(r)
    ensures multiset(r) == multiset(symbols)
  {
    if symbols == [] then []
    else
      var n := |symbols| - 1;
      var front := SortSymbols(symbols[..n]);
      assert symbols == symbols[..n] + [symbols[n]];
      FreshKey(symbols, front);
      InsertSorted(symbols[n], front);
      InsertPermutes(symbols[n], front);
      Insert(symbols[n], front)
  }

  /**
   * The structural part of `f_new_syntax`: the rule count is stored in an
   * 8-bit field, so only the first `|specs| % 256` rules are read (lines
   * 416-419); `maxStateful` is one past the last rule whose pattern came
   * as a table (line 432); the symbols are sorted by key (line 503).
   * Symbol keys and values are copied with `strncpy` (lines 496-497).
   */
  function NewSyntax(specs: seq<RuleSpec>, symbols: seq<Symbol>, syntaxCount: nat): (r: Result<Syntax>)
    requires forall i :: 0 <= i < |specs| ==> ValidSpec(specs[i], syntaxCount)
    requires forall i :: 0 <= i < |symbols| ==> ValidSymbol(symbols[i])
    requires DistinctKeys(symbols)
    ensures r.Ok? ==> ValidSyntax(r.value, syntaxCount)
    ensures r.Ok? ==> |r.value.rules| == |specs| % 256
    ensures r.Ok? ==> multiset(r.value.symbols) == multiset(symbols)
    ensures r.Ok? ==> forall i :: 0 <= i < |specs| % 256 ==>
      MakeRule(specs[i], i, syntaxCount) == Ok((r.value.rules[i], FromTable(specs[i])))
    ensures r.Ok? ==> r.value.maxStateful == StatefulEnd(TableFlags(specs[..|specs| % 256]))
    ensures r.Err? <==> exists i :: 0 <= i < |specs| % 256 && specs[i].pattern.None? && specs[i].regex.None?
    ensures r.Err? ==>
      var k := r.error.index;
      && k < |specs| % 256 && specs[k].pattern.None? && specs[k].regex.None?
      && forall i :: 0 <= i < k ==> !(specs[i].pattern.None? && specs[i].regex.None?)
  {
    var count := |specs| % 256;
    var front := specs[..count];
    match MakeRules(front, syntaxCount)
    case Err(e) =>
      RulesFailed(front, syntaxCount);
      assert forall i :: 0 <= i < e.index ==> front[i] == specs[i] && MakeRule(front[i], i, syntaxCount).Ok?;
      Err(e)
    case Ok(built) =>
      SyntaxBuilt(specs, symbols, syntaxCount, built);
      Ok(Syntax(BuiltRules(built), StatefulEnd(BuiltTables(built)), SortSymbols(symbols)))
  }

  /** What `NewSyntax` promises when every rule was read. */
  lemma SyntaxBuilt(specs: seq<RuleSpec>, symbols: seq<Symbol>, syntaxCount: nat, built: seq<(Rule, bool)>)
    requires forall i :: 0 <= i < |specs| ==> ValidSpec(specs[i], syntaxCount)
    requires forall i :: 0 <= i < |symbols| ==> ValidSymbol(symbols[i])
    requires DistinctKeys(symbols)
    requires MakeRules(specs[..|specs| % 256], syntaxCount) == Ok(built)
    ensures var r := Syntax(BuiltRules(built), StatefulEnd(BuiltTables(built)), SortSymbols(symbols));
      && ValidSyntax(r, syntaxCount)
      && |r.rules| == |specs| % 256
      && multiset(r.symbols) == multiset(symbols)
      && (forall i :: 0 <= i < |specs| % 256 ==>
            MakeRule(specs[i], i, syntaxCount) == Ok((r.rules[i], FromTable(specs[i]))))
      && r.maxStateful == StatefulEnd(TableFlags(specs[..|specs| % 256]))
      && !exists i :: 0 <= i < |specs| % 256 && specs[i].pattern.None? && specs[i].regex.None?
  {
    var front := specs[..|specs| % 256];
    RulesBuilt(front, syntaxCount, built);
    var sorted := SortSymbols(symbols);
    SortKeepsValid(symbols, sorted);
    assert forall i :: 0 <= i < |front| ==> front[i] == specs[i];
    assert BuiltTables(built) == TableFlags(front);
  }

  /** A successful build read a pattern for every rule. */
  lemma RulesBuilt(specs: seq<RuleSpec>, syntaxCount: nat, built: seq<(Rule, bool)>)
    requires forall i :: 0 <= i < |specs| ==> ValidSpec(specs[i], syntaxCount)
    requires MakeRules(specs, syntaxCount) == Ok(built)
    ensures forall i :: 0 <= i < |specs| ==> !(specs[i].pattern.None? && specs[i].regex.None?)
  {
    forall i | 0 <= i < |specs| ensures !(specs[i].pattern.None? && specs[i].regex.None?) {
      assert MakeRule(specs[i], i, syntaxCount).Ok?;
    }
  }

  /** A failed build met a rule with neither field. */
  lemma RulesFailed(specs: seq<RuleSpec>, syntaxCount: nat)
    requires forall i :: 0 <= i < |specs| ==> ValidSpec(specs[i], syntaxCount)
    requires MakeRules(specs, syntaxCount).Err?
    ensures exists i :: 0 <= i < |specs| && specs[i].pattern.None? && specs[i].regex.None?
  {
    var i :| 0 <= i < |specs| && MakeRule(specs[i], i, syntaxCount) == Err(MakeRules(specs, syntaxCount).error);
    assert specs[i].pattern.None? && specs[i].regex.None?;
  }

  function BuiltRules(built: seq<(Rule, bool)>): (rules: seq<Rule>)
    ensures |rules| == |built|
    ensures forall i :: 0 <= i < |built| ==> rules[i] == built[i].0
  {
    seq(|built|, i requires 0 <= i < |built| => built[i].0)
  }

  /** For each rule, whether its pattern came as a table. */
  function TableFlags(specs: seq<RuleSpec>): (fromTable: seq<bool>)
    ensures |fromTable| == |specs|
    ensures forall i :: 0 <= i < |specs| ==> fromTable[i] == FromTable(specs[i])
  {
    seq(|specs|, i requires 0 <= i < |specs| => FromTable(specs[i]))
  }

  function BuiltTables(built: seq<(Rule, bool)>): (fromTable: seq<bool>)
    ensures |fromTable| == |built|
    ensures forall i :: 0 <= i < |built| ==> fromTable[i] == built[i].1
  {
    seq(|built|, i requires 0 <= i < |built| => built[i].1)
  }

  lemma SortKeepsValid(symbols: seq<Symbol>, sorted: seq<Symbol>)
    requires forall i :: 0 <= i < |symbols| ==> ValidSymbol(symbols[i])
    requires multiset(sorted) == multiset(symbols)
    ensures forall i :: 0 <= i < |sorted| ==> ValidSymbol(sorted[i])
  {
    forall i | 0 <= i < |sorted| ensures ValidSymbol(sorted[i]) {
      assert sorted[i] in multiset(symbols);
    }
  }
}
