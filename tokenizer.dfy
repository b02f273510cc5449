/**
 * Tokenizing one line (`emit_token`, `tokenize_line` and the dispatch of
 * `match_pattern`, src/api/tokenizer.c:205-362): the line is cut into runs,
 * each a label and a byte length, and the packed state is carried from the
 * end of one line to the start of the next.
 *
 * Positions are `size_t` in C and wrap modulo 2^64; they are passed to
 * `emit_token` as `int`, which keeps their low 32 bits.
 */
module Tokenizer {
  import opened Bytes
  import opened Syntax
  import opened PackedState
  import Matcher

  const SIZE: int := 0x1_0000_0000_0000_0000

  /** A `size_t` value. */
  type Size = x: int | 0 <= x < SIZE

  /** `a + b` on `size_t`, where a negative `b` is a wrapped value. */
  function Add(a: Size, b: int): (r: Size)
    ensures 0 <= a + b < SIZE ==> r == a + b
  {
    (a + b) % SIZE
  }

  /** A `size_t` converted to a 32-bit `int`. */
  function Int32(x: Size): (r: int)
    ensures -0x8000_0000 <= r < 0x8000_0000
    ensures x < 0x8000_0000 ==> r == x
  {
    var y := x % 0x1_0000_0000;
    if y >= 0x8000_0000 then y - 0x1_0000_0000 else y
  }

  /** One entry of the token list: a label and the number of bytes it covers. */
  datatype Run = Run(kind: Bytes, length: int)

  function Total(runs: seq<Run>): int {
    if runs == [] then 0 else Total(runs[..|runs| - 1]) + runs[|runs| - 1].length
  }

  lemma TotalAppend(runs: seq<Run>, r: Run)
    ensures Total(runs + [r]) == Total(runs) + r.length
  {
    assert (runs + [r])[..|runs|] == runs;
  }

  /** No two neighbouring runs carry the same label. */
  predicate Coalesced(runs: seq<Run>) {
    forall i :: 0 < i < |runs| ==> runs[i - 1].kind != runs[i].kind
  }

  predicate Positive(runs: seq<Run>) {
    forall i :: 0 <= i < |runs| ==> runs[i].length > 0
  }

  const NORMAL: Bytes := Str("normal")

  // ---------------------------------------------------------------------
  // Symbol lookup

  /** The value of the first symbol whose key is `key`. */
  function Lookup(symbols: seq<Symbol>, key: Bytes): Option<Bytes>
  {
    if symbols == [] then None
    else if symbols[0].key == key then Some(symbols[0].value)
    else Lookup(symbols[1..], key)
  }

  /** The lookup finds a symbol with the key and its value, or reports that no symbol has the key. */
  lemma {:induction false} LookupFinds(symbols: seq<Symbol>, key: Bytes)
    ensures var r := Lookup(symbols, key);
      && (r.None? <==> forall i :: 0 <= i < |symbols| ==> symbols[i].key != key)
      && (r.Some? ==> exists i :: 0 <= i < |symbols| && symbols[i].key == key && symbols[i].value == r.value)
  {
    if symbols != [] && symbols[0].key != key {
      LookupFinds(symbols[1..], key);
      assert forall i :: 1 <= i < |symbols| ==> symbols[1..][i - 1] == symbols[i];
      var r := Lookup(symbols[1..], key);
      if r.Some? {
        var i :| 0 <= i < |symbols| - 1 && symbols[1..][i].key == key && symbols[1..][i].value == r.value;
        assert symbols[i + 1] == symbols[1..][i];
      }
    }
  }

  /** With distinct keys, any symbol with the key gives the value `Lookup` finds. */
  lemma {:induction false} LookupAt(symbols: seq<Symbol>, key: Bytes, i: nat)
    requires DistinctKeys(symbols) && i < |symbols| && symbols[i].key == key
    ensures Lookup(symbols, key) == Some(symbols[i].value)
  {
    if i > 0 {
      assert DistinctKeys(symbols[1..]) by {
        forall a, b | 0 <= a < b < |symbols| - 1 ensures symbols[1..][a].key != symbols[1..][b].key {
          assert symbols[1..][a] == symbols[a + 1] && symbols[1..][b] == symbols[b + 1];
        }
      }
      assert symbols[1..][i - 1] == symbols[i];
      LookupAt(symbols[1..], key, i - 1);
    }
  }

  lemma SortedDistinct(symbols: seq<Symbol>)
    requires SortedKeys(symbols)
    ensures DistinctKeys(symbols)
  {
    forall a, b | 0 <= a < b < |symbols| ensures symbols[a].key != symbols[b].key {
      CompareZero(symbols[a].key, symbols[b].key);
    }
  }

  /** The `bsearch` of line 257 over the keys in `strcmp` order. */
  method FindSymbol(symbols: seq<Symbol>, key: Bytes) returns (r: Option<nat>)
    requires SortedKeys(symbols)
    ensures r.Some? ==> r.value < |symbols| && symbols[r.value].key == key
    ensures r.None? ==> forall i :: 0 <= i < |symbols| ==> symbols[i].key != key
  {
    var lo, hi := 0, |symbols|;
    while lo < hi
      invariant 0 <= lo <= hi <= |symbols|
      invariant forall i :: 0 <= i < lo ==> Compare(symbols[i].key, key) < 0
      invariant forall i :: hi <= i < |symbols| ==> Compare(key, symbols[i].key) < 0
      decreases hi - lo
    {
      var mid := lo + (hi - lo) / 2;
      var c := Compare(key, symbols[mid].key);
      if c == 0 {
        CompareZero(key, symbols[mid].key);
        return Some(mid);
      } else if c < 0 {
        forall i | mid <= i < |symbols| ensures Compare(key, symbols[i].key) < 0 {
          if i > mid {
            CompareStrictTransitive(key, symbols[mid].key, symbols[i].key);
          }
        }
        hi := mid;
      } else {
        CompareAntisymmetric(key, symbols[mid].key);
        forall i | 0 <= i <= mid ensures Compare(symbols[i].key, key) < 0 {
          if i < mid {
            CompareStrictTransitive(symbols[i].key, symbols[mid].key, key);
          }
        }
        lo := mid + 1;
      }
    }
    forall i | 0 <= i < |symbols| ensures symbols[i].key != key {
      if i < lo {
        CompareZero(symbols[i].key, key);
      } else {
        CompareZero(key, symbols[i].key);
      }
    }
    return None;
  }

  // ---------------------------------------------------------------------
  // Emitting a run

  /** The bytes from `start` up to `offset`, NUL outside the line. */
  function Span(line: Bytes, start: int, offset: int): (r: Bytes)
    ensures |r| == if offset > start then offset - start else 0
    ensures 0 <= start <= offset <= |line| ==> r == line[start..offset]
  {
    if offset <= start then []
    else
      var r := seq(offset - start, i requires 0 <= i < offset - start => At(line, start + i));
      assert 0 <= start <= offset <= |line| ==> r == line[start..offset] by {
        if 0 <= start <= offset <= |line| {
          forall i | 0 <= i < |r| ensures r[i] == line[start..offset][i] {
            assert r[i] == At(line, start + i);
          }
        }
      }
      r
  }

  /**
   * The label of a span (lines 250-259): "normal" when the rule gives no
   * label; otherwise the value of the symbol whose key is the span's text,
   * looked up only for spans shorter than the 64-byte key field, and the
   * rule's label when there is no such symbol.
   */
  function Label(syn: Syntax, kind: Option<Bytes>, span: Bytes): (r: Bytes)
    ensures kind.None? ==> r == NORMAL
    ensures kind.Some? && |span| >= 64 ==> r == kind.value
  {
    if kind.None? then NORMAL
    else if |span| < 64 then
      match Lookup(syn.symbols, CString(span))
      case Some(v) => v
      case None => kind.value
    else kind.value
  }

  /** A labelled span shorter than 64 bytes takes the value of the symbol named by it, and its label when there is none. */
  lemma LabelLookup(syn: Syntax, kind: Option<Bytes>, span: Bytes)
    requires kind.Some? && |span| < 64
    ensures var r := Label(syn, kind, span);
      || (exists i :: 0 <= i < |syn.symbols| && syn.symbols[i].key == CString(span) && r == syn.symbols[i].value)
      || ((forall i :: 0 <= i < |syn.symbols| ==> syn.symbols[i].key != CString(span)) && r == kind.value)
  {
    LookupFinds(syn.symbols, CString(span));
  }

  /** Lines 251-259: the label chosen by binary search is the one `Label` specifies. */
  method Classify(syn: Syntax, kind: Option<Bytes>, line: Bytes, start: int, offset: int) returns (symbol: Bytes)
    requires SortedKeys(syn.symbols)
    ensures symbol == Label(syn, kind, Span(line, start, offset))
  {
    symbol := NORMAL;
    if kind.Some? {
      var target: Option<nat> := None;
      var span := Span(line, start, offset);
      if offset - start < 64 {
        target := FindSymbol(syn.symbols, CString(span));
      }
      if target.Some? {
        SortedDistinct(syn.symbols);
        LookupAt(syn.symbols, CString(span), target.value);
        symbol := syn.symbols[target.value].value;
      } else {
        LookupFinds(syn.symbols, CString(span));
        symbol := kind.value;
      }
    }
  }

  /** Adding `length` bytes labelled `l`: the last run grows when it has the same label. */
  function Extend(runs: seq<Run>, l: Bytes, length: int): seq<Run>
  {
    if runs != [] && runs[|runs| - 1].kind == l
    then runs[..|runs| - 1] + [Run(l, runs[|runs| - 1].length + length)]
    else runs + [Run(l, length)]
  }

  /**
   * Extending ends with a run labelled `l`: the last run, lengthened, when
   * it already had that label, and otherwise a new run after all the old ones.
   */
  lemma ExtendShape(runs: seq<Run>, l: Bytes, length: int)
    ensures var r := Extend(runs, l, length);
      && r != [] && r[|r| - 1].kind == l
      && (runs != [] && runs[|runs| - 1].kind == l ==>
            && |r| == |runs| && r[..|runs| - 1] == runs[..|runs| - 1]
            && r[|runs| - 1].length == runs[|runs| - 1].length + length)
      && (!(runs != [] && runs[|runs| - 1].kind == l) ==>
            |r| == |runs| + 1 && r[..|runs|] == runs && r[|runs|].length == length)
  {
    var r := Extend(runs, l, length);
    if runs != [] && runs[|runs| - 1].kind == l {
      assert r[..|runs| - 1] == runs[..|runs| - 1];
    } else {
      assert r[..|runs|] == runs;
    }
  }

  /** Extending keeps neighbouring labels distinct and lengths positive, and adds `length` to the total. */
  lemma ExtendKeeps(runs: seq<Run>, l: Bytes, length: int)
    requires length > 0
    ensures Coalesced(runs) ==> Coalesced(Extend(runs, l, length))
    ensures Positive(runs) ==> Positive(Extend(runs, l, length))
    ensures Total(Extend(runs, l, length)) == Total(runs) + length
  {
    var r := Extend(runs, l, length);
    if runs != [] && runs[|runs| - 1].kind == l {
      var n := |runs| - 1;
      var front := runs[..n];
      assert runs == front + [runs[n]];
      assert r == front + [Run(l, runs[n].length + length)];
      TotalAppend(front, runs[n]);
      TotalAppend(front, Run(l, runs[n].length + length));
      assert forall i :: 0 <= i < n ==> r[i] == runs[i];
    } else {
      TotalAppend(runs, Run(l, length));
      assert forall i :: 0 <= i < |runs| ==> r[i] == runs[i];
    }
  }

  /**
   * `emit_token`: a span that is not positive emits nothing and returns 0;
   * a span whose label equals the last run's label lengthens that run and
   * returns 0; any other span is appended as a new run and returns 1.
   */
  method EmitToken(syn: Syntax, kind: Option<Bytes>, offset: int, start: int, line: Bytes, runs: seq<Run>)
      returns (runs': seq<Run>, added: nat)
    requires SortedKeys(syn.symbols)
    ensures offset - start <= 0 ==> runs' == runs && added == 0
    ensures offset - start > 0 ==>
      var l := Label(syn, kind, Span(line, start, offset));
      runs' == Extend(runs, l, offset - start) &&
      added == (if runs != [] && runs[|runs| - 1].kind == l then 0 else 1)
    ensures |runs'| == |runs| + added
    ensures Coalesced(runs) ==> Coalesced(runs')
    ensures Positive(runs) ==> Positive(runs')
    ensures Total(runs') == Total(runs) + (if offset - start > 0 then offset - start else 0)
  {
    if offset - start <= 0 {
      return runs, 0;
    }
    var symbol := Classify(syn, kind, line, start, offset);
    ExtendKeeps(runs, symbol, offset - start);
    added := if runs != [] && runs[|runs| - 1].kind == symbol then 0 else 1;
    runs' := Extend(runs, symbol, offset - start);
  }

  /**
   * What `amount_matched += !quick ? emit_token(...) : 0` does to the runs,
   * with both positions passed as `int`.
   */
  function Emitted(syn: Syntax, kind: Option<Bytes>, offset: Size, start: Size, line: Bytes, runs: seq<Run>,
                   quick: bool): seq<Run>
  {
    if quick then runs else EmitSpan(syn, kind, Int32(offset), Int32(start), line, runs)
  }

  /** The runs after `emit_token` on the span from `start` to `offset`, both `int`. */
  function EmitSpan(syn: Syntax, kind: Option<Bytes>, offset: int, start: int, line: Bytes, runs: seq<Run>): seq<Run>
  {
    if offset - start <= 0 then runs else Extend(runs, Label(syn, kind, Span(line, start, offset)), offset - start)
  }

  // ---------------------------------------------------------------------
  // Matching a pattern (lines 205-223)

  /** A Lua pattern of literal ASCII bytes, no longer than `fuel`: the matcher only compares bytes. */
  predicate Literal(p: Pattern, fuel: nat) {
    p.Lua? && Matcher.Plain(p.text) && |p.text| <= fuel
  }

  predicate LiteralRule(r: Rule, fuel: nat) {
    && Literal(r.enter, fuel)
    && (r.end.Some? ==> Literal(r.end.value, fuel))
    && (r.escape.Some? ==> Literal(r.escape.value, fuel))
  }

  /** Every pattern of every syntax of `g` is literal. */
  predicate LiteralGrammar(g: Grammar, fuel: nat) {
    forall s, i :: 0 <= s < |g.syntaxes| && 0 <= i < |g.syntaxes[s].rules| ==> LiteralRule(g.syntaxes[s].rules[i], fuel)
  }

  /**
   * A regular-expression engine: for a pattern source and the subject from
   * the current offset, the PCRE2 output vector of a match (start and end
   * of the match and of each group, relative to the subject), or `None`.
   */
  type RegexEngine = (Bytes, Bytes) -> Option<seq<nat>>

  /**
   * Lines 208-221: no match when the engine fails or the match ends before
   * it starts; otherwise two entries per group, at most 256 stored, each
   * `ovector[i] + offset + 1`.
   */
  function RegexEntries(ov: Option<seq<nat>>, offset: Size): (r: (nat, seq<int>))
    ensures ov.None? ==> r == (0, [])
    ensures ov.Some? && |ov.value| >= 2 && ov.value[0] > ov.value[1] ==> r == (0, [])
    ensures ov.Some? && !(|ov.value| >= 2 && ov.value[0] > ov.value[1]) ==>
      r.0 == |ov.value| / 2 * 2 && |r.1| == (if r.0 < 256 then r.0 else 256) &&
      forall i :: 0 <= i < |r.1| ==> r.1[i] == ov.value[i] + offset + 1
  {
    match ov
    case None => (0, [])
    case Some(v) =>
      if |v| >= 2 && v[0] > v[1] then (0, [])
      else
        var n := |v| / 2 * 2;
        var stored := if n < 256 then n else 256;
        (n, seq(stored, i requires 0 <= i < stored => v[i] + offset + 1))
  }

  /**
   * `match_pattern`: a regular expression goes to the engine, a Lua pattern
   * to the pattern matcher with every byte of the line searchable.
   * `complete` is false when the matcher ran out of fuel.
   */
  method MatchPattern(p: Pattern, line: Bytes, offset: Size, engine: RegexEngine, fuel: nat)
      returns (n: nat, lengths: seq<int>, complete: bool)
    requires ValidPattern(p) && offset <= |line|
    ensures !complete ==> n == 0
    ensures p.Regex? ==> complete && (n, lengths) == RegexEntries(engine(p.source, line[offset..]), offset)
    ensures p.Lua? ==> n == |lengths|
    ensures p.Lua? && n > 0 ==> Matcher.CapturesWithin(offset, lengths, |line|)
    ensures p.Lua? && n > 0 && Matcher.AnchoredAtEnd(p.text) ==> offset + Sum(lengths) == |line|
    ensures p.Lua? && At(p.text, 0) == Matcher.CARET && offset != 0 ==> n == 0
    ensures Literal(p, fuel) && Matcher.Ascii(line) ==>
      complete && (n > 0 <==> Matcher.PrefixAt(p.text, line, offset)) && (n > 0 ==> lengths == [|p.text|])
  {
    match p
    case Regex(source) =>
      var r := RegexEntries(engine(source, line[offset..]), offset);
      return r.0, r.1, true;
    case Lua(text) =>
      n, lengths, complete := Matcher.MatchPatternInternal(text, line, offset, fuel);
  }

  /** Entry `j` of the capture buffer; entries beyond what was stored read as 0. */
  function Entry(lengths: seq<int>, j: nat): (r: int)
    ensures j < |lengths| ==> r == lengths[j]
    ensures j >= |lengths| ==> r == 0
  {
    if j < |lengths| then lengths[j] else 0
  }

  // ---------------------------------------------------------------------
  // The line loop (lines 282-362)

  /** How `tokenize_line` ended; only `Finished` is a return of the C function. */
  datatype Status =
    | Finished
    | OutOfFuel // the loop or a pattern match ran out of fuel
    | TooDeep   // a subsyntax was entered below the fourth level
    | PastRules // a pass read a rule beyond the end of the rule table

  /** How a pass ended: on to the next pass, into a subsyntax, too deep, or at a rule beyond the table. */
  datatype Pass = Next | Jump | Deep | Overrun

  /** The variables of `tokenize_line` that carry from one pass of its loop to the next. */
  datatype Tok = Tok(offset: Size, lastEmission: Size, runs: seq<Run>, state: State, info: Info)

  /** A valid grammar and a root syntax in it; `Closed` follows from validity (`ValidClosed`) and is what the decoder needs. */
  predicate GrammarPre(g: Grammar, root: nat) {
    ValidGrammar(g) && Closed(g) && root < |g.syntaxes|
  }

  /** A capture list whose entries are non-negative and stay within the line. */
  ghost predicate Regular(offset: int, n: nat, lengths: seq<int>, limit: int) {
    && n == |lengths|
    && (forall k :: 0 <= k < |lengths| ==> lengths[k] >= 0)
    && Matcher.CapturesWithin(offset, lengths, limit)
  }

  /** `p` is a Lua pattern whose bytes occur at `offset` of the line. */
  predicate PatternAt(p: Pattern, line: Bytes, offset: nat) {
    p.Lua? && Matcher.PrefixAt(p.text, line, offset)
  }

  /** The one entry a literal match writes is a regular capture list. */
  lemma LiteralRegular(offset: nat, text: Bytes, line: Bytes)
    requires Matcher.PrefixAt(text, line, offset)
    ensures Regular(offset, 1, [|text|], |line|)
  {
    assert [|text|][..0] == [] && [|text|][..1] == [|text|];
    assert Sum([|text|]) == Sum([]) + |text|;
  }

  /**
   * What holds between passes: the state is one the tokenizer can be in and
   * `info` is its decoding; runs are coalesced and positive, and absent in
   * quick mode. While every capture list used was regular, the runs cover
   * exactly the bytes before `lastEmission`, which lies within the line and
   * at most at `offset`; an escape match (line 341) can leave `offset` one
   * past the end of the line.
   */
  ghost predicate TokInv(g: Grammar, root: nat, line: Bytes, quick: bool, t: Tok, regular: bool)
    requires GrammarPre(g, root)
  {
    && ValidState(g, root, t.state) && t.info == Decode(g, root, Levels(t.state))
    && Coalesced(t.runs) && Positive(t.runs) && (quick ==> t.runs == [])
    && (regular ==>
          && t.lastEmission <= |line| && t.lastEmission <= t.offset <= |line| + 1
          && (quick || Total(t.runs) == t.lastEmission))
  }

  lemma RulesValid(g: Grammar, syn: nat)
    requires ValidGrammar(g) && syn < |g.syntaxes|
    ensures SortedKeys(g.syntaxes[syn].symbols)
    ensures g.syntaxes[syn].maxStateful <= |RulesOf(g, syn)| < 256
    ensures forall i :: 0 <= i < |RulesOf(g, syn)| ==> ValidRule(RulesOf(g, syn)[i], |g.syntaxes|)
  {
    assert ValidSyntax(g.syntaxes[syn], |g.syntaxes|);
  }

  lemma SymbolsSorted(g: Grammar, syn: nat)
    requires ValidGrammar(g) && syn < |g.syntaxes|
    ensures SortedKeys(g.syntaxes[syn].symbols)
  {
    assert ValidSyntax(g.syntaxes[syn], |g.syntaxes|);
  }

  /** `amount_matched += !quick ? emit_token(...) : 0`, with the positions passed as `int`. */
  method Emit(g: Grammar, syn: nat, kind: Option<Bytes>, offset: Size, start: Size, line: Bytes, runs: seq<Run>, quick: bool)
      returns (runs': seq<Run>)
    requires ValidGrammar(g) && syn < |g.syntaxes|
    ensures runs' == Emitted(g.syntaxes[syn], kind, offset, start, line, runs, quick)
    ensures quick || offset == start ==> runs' == runs
    ensures Coalesced(runs) ==> Coalesced(runs')
    ensures Positive(runs) ==> Positive(runs')
    ensures !quick && start <= offset < 0x8000_0000 ==> Total(runs') == Total(runs) + (offset - start)
  {
    if quick {
      return runs;
    }
    SymbolsSorted(g, syn);
    var o, st := Int32(offset), Int32(start);
    var added;
    runs', added := EmitToken(g.syntaxes[syn], kind, o, st, line, runs);
    if o - st > 0 {
      ghost var l := Label(g.syntaxes[syn], kind, Span(line, st, o));
      assert runs' == Extend(runs, l, o - st);
    }
  }

  /**
   * What lines 291-304 do to `t`, giving `t1`: only inside a subsyntax can
   * the pass leave it (`exited`), and then the two levels are cleared and
   * the parent syntax is current, outside its rules. For literal patterns,
   * it leaves exactly when the parent rule's escape does not match at the
   * offset and its end does.
   */
  ghost predicate ParentChecked(g: Grammar, root: nat, line: Bytes, fuel: nat, t: Tok, t1: Tok, exited: bool)
    requires GrammarPre(g, root) && ValidState(g, root, t.state) && t.info == Decode(g, root, Levels(t.state))
  {
    && (!exited ==> t1 == t)
    && (exited ==>
          && |t.info.path| >= 1
          && t1 == t.(state := ClearTwo(t.state, |t.info.path|),
                      info := Info(0, t.info.path[..|t.info.path| - 1], t.info.path[|t.info.path| - 1].syntax)))
    && (|t.info.path| == 0 ==> !exited)
    && (LiteralGrammar(g, fuel) && Matcher.Ascii(line) && |t.info.path| >= 1 ==>
          var step := t.info.path[|t.info.path| - 1];
          var rule := RulesOf(g, step.syntax)[step.rule];
          (exited <==>
             && !(rule.escape.Some? && PatternAt(rule.escape.value, line, t.offset))
             && rule.end.Some? && PatternAt(rule.end.value, line, t.offset)))
  }

  /**
   * Lines 291-304: inside a subsyntax, unless the parent rule's escape
   * matches here, a match of the parent rule's end pattern leaves the
   * subsyntax.
   */
  method ParentCheck(g: Grammar, root: nat, line: Bytes, quick: bool, t: Tok, engine: RegexEngine, fuel: nat,
                     ghost regular: bool)
      returns (t': Tok, exited: bool, complete: bool)
    requires GrammarPre(g, root) && TokInv(g, root, line, quick, t, regular) && t.offset < |line|
    ensures TokInv(g, root, line, quick, t', regular)
    ensures ParentChecked(g, root, line, fuel, t, t', exited)
    ensures |t.info.path| == 0 || (LiteralGrammar(g, fuel) && Matcher.Ascii(line)) ==> complete
  {
    t', exited, complete := t, false, true;
    var d := |t.info.path|;
    if d == 0 {
      return;
    }
    var step := t.info.path[d - 1];
    RulesValid(g, step.syntax);
    var rule := RulesOf(g, step.syntax)[step.rule];
    if LiteralGrammar(g, fuel) {
      assert LiteralRule(g.syntaxes[step.syntax].rules[step.rule], fuel);
    }
    var n: nat := 0;
    if rule.escape.Some? {
      var lengths;
      n, lengths, complete := MatchPattern(rule.escape.value, line, t.offset, engine, fuel);
    }
    if n == 0 && rule.end.Some? {
      var lengths, c;
      n, lengths, c := MatchPattern(rule.end.value, line, t.offset, engine, fuel);
      complete := complete && c;
      if n > 0 {
        t' := ExitSubsyntax(g, root, line, quick, t, regular);
        exited := true;
      }
    }
  }

  /** Lines 299-301: back in the parent syntax, outside its rules. */
  method ExitSubsyntax(g: Grammar, root: nat, line: Bytes, quick: bool, t: Tok, ghost regular: bool) returns (t': Tok)
    requires GrammarPre(g, root) && TokInv(g, root, line, quick, t, regular) && |t.info.path| >= 1
    ensures TokInv(g, root, line, quick, t', regular)
    ensures t'.state == ClearTwo(t.state, |t.info.path|)
    ensures t'.info == Info(0, t.info.path[..|t.info.path| - 1], t.info.path[|t.info.path| - 1].syntax)
    ensures t'.offset == t.offset && t'.lastEmission == t.lastEmission && t'.runs == t.runs
  {
    var d := |t.info.path|;
    var s := ClearTwo(t.state, d);
    LevelsClearTwo(t.state, d);
    LeaveSubsyntax(g, root, Levels(t.state));
    t' := t.(state := s, info := Decode(g, root, Levels(s)));
  }

  /** How many rules a pass tries: in quick mode only the stateful prefix (line 290). */
  function RuleCount(g: Grammar, syn: nat, quick: bool): (n: nat)
    requires ValidGrammar(g) && syn < |g.syntaxes|
    ensures n <= |RulesOf(g, syn)|
    ensures !quick ==> n == |RulesOf(g, syn)|
    ensures quick ==> n == g.syntaxes[syn].maxStateful
  {
    RulesValid(g, syn);
    if quick then g.syntaxes[syn].maxStateful else |RulesOf(g, syn)|
  }

  /**
   * A root syntax whose one rule enters a subsyntax of three rules. Line 290
   * takes the rule count of the subsyntax at the top of a pass; when the
   * parent's end pattern then matches (lines 296-301) the pass goes on in
   * the root syntax, which has one rule.
   */
  function StaleGrammar(): Grammar {
    var a: Bytes := [97];
    var child := Rule(Lua(a), None, None, [a], None);
    var enter := Rule(Lua([60]), Some(Lua([62])), None, [a], Some(1));
    Grammar([Syntax([enter], 1, []), Syntax([child, child, child], 0, [])])
  }

  /**
   * In state 1 (inside the subsyntax) the count taken at line 290 is 3, but
   * after the parent's end pattern matches the target has one rule, so the
   * loop of line 308 reads rules 1 and 2 past the end of the root's table.
   */
  lemma StaleRuleCount()
    ensures GrammarPre(StaleGrammar(), 0) && ValidState(StaleGrammar(), 0, 1)
    ensures Decode(StaleGrammar(), 0, Levels(1)) == Info(0, [Step(0, 0)], 1)
    ensures RuleCount(StaleGrammar(), 1, false) == 3
    ensures Decode(StaleGrammar(), 0, Levels(ClearTwo(1, 1))) == Info(0, [], 0)
    ensures |RulesOf(StaleGrammar(), 0)| == 1
  {
    StaleGrammarValid();
    StaleLevels();
  }

  lemma StaleGrammarValid()
    ensures GrammarPre(StaleGrammar(), 0)
  {
    var g := StaleGrammar();
    var a: Bytes := [97];
    assert ValidLabel(a) && ValidPattern(Lua(a)) && ValidPattern(Lua([60])) && ValidPattern(Lua([62]));
    assert ValidRule(g.syntaxes[0].rules[0], 2);
    assert ValidRule(g.syntaxes[1].rules[0], 2);
    assert ValidSyntax(g.syntaxes[0], 2);
    assert ValidSyntax(g.syntaxes[1], 2);
    ValidClosed(g);
  }

  /** State 1 is inside rule 0 at level 0; line 299 clears it to 0. */
  lemma StaleLevels()
    ensures Levels(1) == [1, 0, 0, 0] && Levels(ClearTwo(1, 1)) == [0, 0, 0, 0]
  {
  }

  /**
   * A root syntax with two rules, `<` entering subsyntax 1 up to `>`, and
   * `>` labelled "gt"; the subsyntax has one rule. On the line `>` in state
   * 1 the parent's end pattern matches, and the pass then tries only as
   * many rules of the root as the subsyntax has: the rule for `>` is never
   * tried, and the byte is skipped as text no rule matched.
   */
  function ShortGrammar(): Grammar {
    var a: Bytes := [97];
    var child := Rule(Lua(a), None, None, [a], None);
    var enter := Rule(Lua([60]), Some(Lua([62])), None, [a], Some(1));
    var close := Rule(Lua([62]), None, None, [[103, 116]], None);
    Grammar([Syntax([enter, close], 1, []), Syntax([child], 0, [])])
  }

  /**
   * In state 1 the count taken at line 290 is 1, while the root, where the
   * pass goes on after the end pattern `>` matched, has two rules; its
   * first rule does not match `>` and its second would.
   */
  lemma ShortRuleCount()
    ensures GrammarPre(ShortGrammar(), 0) && ValidState(ShortGrammar(), 0, 1)
    ensures Decode(ShortGrammar(), 0, Levels(1)) == Info(0, [Step(0, 0)], 1)
    ensures PatternAt(RulesOf(ShortGrammar(), 0)[0].end.value, [62], 0)
    ensures Decode(ShortGrammar(), 0, Levels(ClearTwo(1, 1))) == Info(0, [], 0)
    ensures RuleCount(ShortGrammar(), 1, false) == 1 < |RulesOf(ShortGrammar(), 0)|
    ensures !PatternAt(RulesOf(ShortGrammar(), 0)[0].enter, [62], 0)
    ensures PatternAt(RulesOf(ShortGrammar(), 0)[1].enter, [62], 0)
  {
    var g := ShortGrammar();
    var a: Bytes := [97];
    assert ValidLabel(a) && ValidLabel([103, 116]);
    assert ValidPattern(Lua(a)) && ValidPattern(Lua([60])) && ValidPattern(Lua([62]));
    assert ValidRule(g.syntaxes[0].rules[0], 2) && ValidRule(g.syntaxes[0].rules[1], 2);
    assert ValidRule(g.syntaxes[1].rules[0], 2);
    assert ValidSyntax(g.syntaxes[0], 2) && ValidSyntax(g.syntaxes[1], 2);
    ValidClosed(g);
    StaleLevels();
    assert [62][0..1] == [62];
  }

  /** Every pattern of `ShortGrammar` is a one-byte literal. */
  lemma ShortLiteral(fuel: nat)
    requires fuel >= 1
    ensures LiteralGrammar(ShortGrammar(), fuel) && Matcher.Ascii([62])
  {
    var g := ShortGrammar();
    assert Matcher.Plain([97]) && Matcher.Plain([60]) && Matcher.Plain([62]);
    assert LiteralRule(g.syntaxes[0].rules[0], fuel) && LiteralRule(g.syntaxes[0].rules[1], fuel);
    assert LiteralRule(g.syntaxes[1].rules[0], fuel);
  }

  /** The variables at the top of the pass: offset 0 of the line `>`, in state 1. */
  function ShortStart(): Tok {
    Tok(0, 0, [], 1, Info(0, [Step(0, 0)], 1))
  }

  /**
   * The pass on `>` in state 1 as written: the end pattern leaves the
   * subsyntax, the count of 1 stops the scan before the root's rule for
   * `>`, and the byte is skipped as a word; the end of the line then
   * emits it as "normal".
   */
  lemma ShortPassAsWritten(fuel: nat, t': Tok, pass: Pass, tr: PassTrace, regular': bool)
    requires fuel >= 1
    requires Passed(ShortGrammar(), 0, [62], false, fuel, false, ShortStart(), t', pass, tr, true, regular')
    ensures tr.exited && tr.count == 1 && tr.rule == 1 && pass == Next
    ensures t' == Tok(1, 0, [], 0, Info(0, [], 0))
    ensures Emitted(ShortGrammar().syntaxes[0], None, t'.offset, t'.lastEmission, [62], t'.runs, false)
            == [Run(NORMAL, 1)]
  {
    var g := ShortGrammar();
    ShortRuleCount();
    ShortLiteral(fuel);
    assert tr.exited;
    assert ClearTwo(1, 1) == 0;
    assert tr.checked == Tok(0, 0, [], 0, Info(0, [], 0));
    assert tr.rule != 0;
    assert Label(g.syntaxes[0], None, Span([62], 0, 1)) == NORMAL;
  }

  /**
   * The same pass with the count of the root syntax: its rule for `>`
   * applies, and the byte is emitted as "gt".
   */
  lemma ShortPassCorrected(fuel: nat, t': Tok, pass: Pass, tr: PassTrace, regular': bool)
    requires fuel >= 1
    requires Passed(ShortGrammar(), 0, [62], false, fuel, true, ShortStart(), t', pass, tr, true, regular')
    ensures tr.exited && tr.count == 2 && tr.rule == 1 && pass == Next && regular'
    ensures t' == Tok(1, 1, [Run([103, 116], 1)], 0, Info(0, [], 0))
    ensures Emitted(ShortGrammar().syntaxes[0], None, t'.offset, t'.lastEmission, [62], t'.runs, false)
            == [Run([103, 116], 1)]
  {
    var g := ShortGrammar();
    ShortRuleCount();
    ShortLiteral(fuel);
    assert tr.exited;
    assert ClearTwo(1, 1) == 0;
    var t1 := Tok(0, 0, [], 0, Info(0, [], 0));
    assert tr.checked == t1;
    assert tr.rule != 0 && tr.rule != 2;
    assert tr.lengths == [1];
    LiteralRegular(0, [62], [62]);
    assert tr.n == 1;
    assert Pending(g, [62], false, t1) == t1;
    assert Shift(0, [1], 1) == 1;
    assert CString([62]) == [62];
    assert Label(g.syntaxes[0], Some([103, 116]), Span([62], 0, 1)) == [103, 116];
    assert Captured(g.syntaxes[0], [[103, 116]], [62], false, [], 0, 0, [1], 1) == [Run([103, 116], 1)];
  }

  /** One rule from `<` up to `>`, labelled "a", and no subsyntax. */
  function CloseGrammar(): Grammar {
    Grammar([Syntax([Rule(Lua([60]), Some(Lua([62])), None, [[97]], None)], 0, [])])
  }

  /**
   * Inside that rule (state 1) on the line `>>`, the pass takes the end
   * pattern at offset 0 and no more: one byte is labelled "a", the offset
   * moves to 1 and the rule is left.
   */
  lemma ClosePass(fuel: nat, corrected: bool, t': Tok, pass: Pass, tr: PassTrace, regular': bool)
    requires fuel >= 1
    requires Passed(CloseGrammar(), 0, [62, 62], false, fuel, corrected, Tok(0, 0, [], 1, Info(1, [], 0)),
                    t', pass, tr, true, regular')
    ensures !tr.exited && !tr.escaped && tr.n == 1 && tr.lengths == [1] && pass == Next
    ensures t' == Tok(1, 1, [Run([97], 1)], 0, Info(0, [], 0))
  {
    var g := CloseGrammar();
    var t := Tok(0, 0, [], 1, Info(1, [], 0));
    assert Matcher.Plain([60]) && Matcher.Plain([62]);
    assert LiteralRule(g.syntaxes[0].rules[0], fuel);
    assert LiteralGrammar(g, fuel) && Matcher.Ascii([62, 62]);
    assert [62, 62][0..1] == [62];
    assert tr.checked == t;
    assert Shift(0, [1], 1) == 1;
    assert CString([62, 62]) == [62, 62];
    assert Label(g.syntaxes[0], Some([97]), Span([62, 62], 0, 1)) == [97];
    assert Captured(g.syntaxes[0], [[97]], [62, 62], false, [], 0, 0, [1], 1) == [Run([97], 1)];
    assert SetLevel(1, 0, 0) == 0;
  }

  /** `o` is past the alphanumeric bytes at `offset` and the one byte that ends them, or at the end of the line. */
  predicate SkipsWord(line: Bytes, offset: int, o: int) {
    && 0 <= offset < o <= |line|
    && (forall k :: offset <= k < o - 1 ==> IsAlnum(line[k]))
    && (o == |line| || !IsAlnum(line[o - 1]))
  }

  /** `while (offset < length && isalnum(line[offset++]));` */
  method SkipWord(line: Bytes, offset: Size) returns (o: Size)
    requires offset < |line| < SIZE
    ensures SkipsWord(line, offset, o)
  {
    o := offset;
    while o < |line|
      invariant offset <= o <= |line|
      invariant forall k :: offset <= k < o ==> IsAlnum(line[k])
      decreases |line| - o
    {
      var c := line[o];
      o := o + 1;
      if !IsAlnum(c) {
        return;
      }
    }
  }

  lemma SumStep(lengths: seq<int>, j: nat)
    requires j < |lengths|
    ensures Sum(lengths[..j + 1]) == Sum(lengths[..j]) + lengths[j]
  {
    assert lengths[..j + 1][..j] == lengths[..j];
  }

  /** One more entry of a regular capture list: a non-negative step that stays within the line. */
  lemma RegularStep(offset: int, n: nat, lengths: seq<int>, limit: int, j: nat)
    requires Regular(offset, n, lengths, limit) && j < n
    ensures Entry(lengths, j) >= 0
    ensures offset + Sum(lengths[..j + 1]) == offset + Sum(lengths[..j]) + Entry(lengths, j) <= limit
  {
    SumStep(lengths, j);
    assert offset + Sum(lengths[..j + 1]) <= limit;
  }

  /** The label of capture `j`: the rule's label `j`, none past its labels (lines 321 and 347). */
  function LabelAt(labels: seq<Bytes>, j: nat): (r: Option<Bytes>)
    ensures r.Some? <==> j < |labels|
    ensures j < |labels| ==> r.value == labels[j]
  {
    if j < |labels| then Some(labels[j]) else None
  }

  /** Position `x` moved past the first `j` capture entries, in `size_t` arithmetic. */
  function Shift(x: Size, lengths: seq<int>, j: nat): Size
    decreases j
  {
    if j == 0 then x else Add(Shift(x, lengths, j - 1), Entry(lengths, j - 1))
  }

  /**
   * The runs after the first `j` captures are emitted: capture `k` spans
   * from `Shift(base, lengths, k)` (from `first` for capture 0) to
   * `Shift(base, lengths, k + 1)` and carries label `k`.
   */
  function Captured(syn: Syntax, labels: seq<Bytes>, line: Bytes, quick: bool, runs: seq<Run>,
                    first: Size, base: Size, lengths: seq<int>, j: nat): seq<Run>
    decreases j
  {
    if j == 0 then runs
    else
      var start := if j == 1 then first else Shift(base, lengths, j - 1);
      Emitted(syn, LabelAt(labels, j - 1), Shift(base, lengths, j), start, line,
              Captured(syn, labels, line, quick, runs, first, base, lengths, j - 1), quick)
  }

  /** Emitting capture `j`, from `start` to `stop`, adds one capture to `Captured`. */
  method EmitCapture(g: Grammar, syn: nat, labels: seq<Bytes>, line: Bytes, quick: bool, runs0: seq<Run>,
                     first: Size, base: Size, lengths: seq<int>, j: nat, runs: seq<Run>, start: Size, stop: Size)
      returns (runs': seq<Run>)
    requires ValidGrammar(g) && syn < |g.syntaxes|
    requires runs == Captured(g.syntaxes[syn], labels, line, quick, runs0, first, base, lengths, j)
    requires start == (if j == 0 then first else Shift(base, lengths, j)) && stop == Shift(base, lengths, j + 1)
    requires Coalesced(runs) && Positive(runs) && (quick ==> runs == [])
    ensures runs' == Captured(g.syntaxes[syn], labels, line, quick, runs0, first, base, lengths, j + 1)
    ensures Coalesced(runs') && Positive(runs') && (quick ==> runs' == [])
    ensures !quick && start <= stop < 0x8000_0000 ==> Total(runs') == Total(runs) + (stop - start)
  {
    runs' := Emit(g, syn, LabelAt(labels, j), stop, start, line, runs, quick);
  }

  /** After `j` of the captures at lines 320-324: what the loop keeps. */
  ghost predicate CapturesSoFar(g: Grammar, syn: nat, labels: seq<Bytes>, line: Bytes, quick: bool, runs: seq<Run>,
                                lastEmission: Size, offset: Size, n: nat, lengths: seq<int>, regular: bool,
                                j: nat, runs': seq<Run>, lastEmission': Size, offset': Size)
    requires ValidGrammar(g) && syn < |g.syntaxes|
  {
    && j <= n
    && runs' == Captured(g.syntaxes[syn], labels, line, quick, runs, lastEmission, lastEmission, lengths, j)
    && lastEmission' == Shift(lastEmission, lengths, j) && offset' == Shift(offset, lengths, j)
    && Coalesced(runs') && Positive(runs') && (quick ==> runs' == [])
    && (regular ==> j <= |lengths| && offset' == offset + Sum(lengths[..j]) <= |line| && lastEmission' == offset')
    && (regular ==> quick || Total(runs') == offset')
  }

  lemma SumAll(lengths: seq<int>, n: nat, regular: bool)
    requires regular ==> n == |lengths|
    ensures regular ==> Sum(lengths[..n]) == Sum(lengths)
  {
    if regular {
      assert lengths[..n] == lengths;
    }
  }

  lemma CapturesStart(g: Grammar, syn: nat, labels: seq<Bytes>, line: Bytes, quick: bool, runs: seq<Run>,
                      lastEmission: Size, offset: Size, n: nat, lengths: seq<int>, regular: bool)
    requires ValidGrammar(g) && syn < |g.syntaxes|
    requires Coalesced(runs) && Positive(runs) && (quick ==> runs == [])
    requires regular ==>
      Regular(offset, n, lengths, |line|) && lastEmission == offset <= |line| && (quick || Total(runs) == offset)
    ensures CapturesSoFar(g, syn, labels, line, quick, runs, lastEmission, offset, n, lengths, regular,
                          0, runs, lastEmission, offset)
  {
    assert lengths[..0] == [];
  }

  /** One capture of lines 320-324. */
  method CaptureStep(g: Grammar, syn: nat, labels: seq<Bytes>, line: Bytes, quick: bool, runs: seq<Run>,
                     lastEmission: Size, offset: Size, n: nat, lengths: seq<int>, ghost regular: bool,
                     j: nat, runs': seq<Run>, lastEmission': Size, offset': Size)
      returns (runs'': seq<Run>, lastEmission'': Size, offset'': Size)
    requires ValidGrammar(g) && syn < |g.syntaxes| && |line| < 0x8000_0000
    requires regular ==> Regular(offset, n, lengths, |line|)
    requires CapturesSoFar(g, syn, labels, line, quick, runs, lastEmission, offset, n, lengths, regular,
                           j, runs', lastEmission', offset') && j < n
    ensures CapturesSoFar(g, syn, labels, line, quick, runs, lastEmission, offset, n, lengths, regular,
                          j + 1, runs'', lastEmission'', offset'')
  {
    if regular {
      RegularStep(offset, n, lengths, |line|, j);
    }
    var next := Add(lastEmission', Entry(lengths, j));
    runs'' := EmitCapture(g, syn, labels, line, quick, runs, lastEmission, lastEmission, lengths, j, runs',
                          lastEmission', next);
    lastEmission'' := next;
    offset'' := Add(offset', Entry(lengths, j));
  }

  /**
   * Lines 320-324: capture `j` is emitted from the last emission up to the
   * last emission plus entry `j`; the last emission and the offset each
   * move past every entry.
   */
  method EmitCaptures(g: Grammar, syn: nat, labels: seq<Bytes>, line: Bytes, quick: bool, runs: seq<Run>,
                      lastEmission: Size, offset: Size, n: nat, lengths: seq<int>, ghost regular: bool)
      returns (runs': seq<Run>, lastEmission': Size, offset': Size)
    requires ValidGrammar(g) && syn < |g.syntaxes| && |line| < 0x8000_0000
    requires Coalesced(runs) && Positive(runs) && (quick ==> runs == [])
    requires regular ==>
      Regular(offset, n, lengths, |line|) && lastEmission == offset <= |line| && (quick || Total(runs) == offset)
    ensures runs' == Captured(g.syntaxes[syn], labels, line, quick, runs, lastEmission, lastEmission, lengths, n)
    ensures lastEmission' == Shift(lastEmission, lengths, n) && offset' == Shift(offset, lengths, n)
    ensures Coalesced(runs') && Positive(runs') && (quick ==> runs' == [])
    ensures regular ==>
      offset' == offset + Sum(lengths) <= |line| && lastEmission' == offset' && (quick || Total(runs') == offset')
  {
    var j := 0;
    runs', lastEmission', offset' := runs, lastEmission, offset;
    CapturesStart(g, syn, labels, line, quick, runs, lastEmission, offset, n, lengths, regular);
    while j < n
      invariant CapturesSoFar(g, syn, labels, line, quick, runs, lastEmission, offset, n, lengths, regular,
                              j, runs', lastEmission', offset')
    {
      runs', lastEmission', offset' := CaptureStep(g, syn, labels, line, quick, runs, lastEmission, offset, n,
                                                   lengths, regular, j, runs', lastEmission', offset');
      j := j + 1;
    }
    SumAll(lengths, n, regular);
  }


  /** The first capture of a regular capture list stays within the line. */
  lemma FirstWithin(offset: int, n: nat, lengths: seq<int>, limit: int)
    requires n > 0 && Regular(offset, n, lengths, limit)
    ensures 0 <= lengths[0] && offset + lengths[0] <= limit
  {
    assert lengths[..1] == [lengths[0]];
    assert Sum([lengths[0]]) == Sum([]) + lengths[0];
    assert offset + Sum(lengths[..1]) <= limit;
  }

  /** Lines 316-318: entering rule `i`, which has an end pattern and no subsyntax. */
  method EnterStateful(g: Grammar, root: nat, line: Bytes, quick: bool, t: Tok, i: nat, n: nat, lengths: seq<int>,
                       ghost regular: bool)
      returns (t': Tok)
    requires GrammarPre(g, root) && TokInv(g, root, line, quick, t, regular) && |line| < 0x8000_0000
    requires t.info.ruleIdx == 0 && i < |RulesOf(g, t.info.syntax)|
    requires RulesOf(g, t.info.syntax)[i].subsyntax.None? && RulesOf(g, t.info.syntax)[i].end.Some?
    requires regular ==> n > 0 && Regular(t.offset, n, lengths, |line|) && t.offset <= |line|
    ensures TokInv(g, root, line, quick, t', regular)
    ensures regular ==> t'.offset <= |line|
    ensures t' == Tok(Add(t.offset, Entry(lengths, 0)), t.lastEmission, t.runs,
                      SetLevel(t.state, |t.info.path|, i + 1), t.info.(ruleIdx := i + 1))
  {
    var d := |t.info.path|;
    var s := SetLevel(t.state, d, i + 1);
    LevelsSet(t.state, d, i + 1);
    EnterRule(g, root, Levels(t.state), i);
    if regular {
      FirstWithin(t.offset, n, lengths, |line|);
    }
    t' := Tok(Add(t.offset, Entry(lengths, 0)), t.lastEmission, t.runs, s, t.info.(ruleIdx := i + 1));
  }

  /** Lines 325-328: entering the subsyntax of rule `i`; below the fourth level the pass is `Deep`. */
  method EnterSub(g: Grammar, root: nat, line: Bytes, quick: bool, t: Tok, i: nat, ghost regular: bool)
      returns (t': Tok, pass: Pass)
    requires GrammarPre(g, root) && TokInv(g, root, line, quick, t, regular)
    requires t.info.ruleIdx == 0 && i < |RulesOf(g, t.info.syntax)| && RulesOf(g, t.info.syntax)[i].subsyntax.Some?
    ensures t'.runs == t.runs && t'.lastEmission == t.lastEmission && t'.offset == t.offset
    ensures t'.state == SetLevel(t.state, |t.info.path|, i + 1)
    ensures pass != Deep ==> TokInv(g, root, line, quick, t', regular)
    ensures (pass == Jump || pass == Deep) && (pass == Deep <==> |t.info.path| == 3)
  {
    var d := |t.info.path|;
    var s := SetLevel(t.state, d, i + 1);
    LevelsSet(t.state, d, i + 1);
    EnterSubsyntax(g, root, Levels(t.state), i);
    var info := Decode(g, root, Levels(s));
    t' := t.(state := s, info := info);
    pass := if |info.path| == 4 then Deep else Jump;
  }

  /** Lines 311-314: the text since the last emission, if any, is emitted as "normal". */
  function Pending(g: Grammar, line: Bytes, quick: bool, t: Tok): Tok
    requires t.info.syntax < |g.syntaxes|
  {
    if t.lastEmission < t.offset
    then t.(runs := Emitted(g.syntaxes[t.info.syntax], None, t.offset, t.lastEmission, line, t.runs, quick),
            lastEmission := t.offset)
    else t
  }

  /**
   * Lines 315-331 once rule `i` of the current syntax matched with entries
   * `lengths`, from `t0` where nothing is pending: a rule with an end
   * pattern and no subsyntax is entered, the offset moving past entry 0.
   * Any other rule emits its captures from the last emission on while the
   * offset moves past the same entries, and a rule with a subsyntax then
   * enters it.
   */
  ghost predicate AppliedFrom(g: Grammar, line: Bytes, quick: bool, t0: Tok, i: nat, n: nat, lengths: seq<int>,
                              t': Tok, pass: Pass)
    requires t0.info.syntax < |g.syntaxes| && i < |RulesOf(g, t0.info.syntax)|
  {
    var syn := g.syntaxes[t0.info.syntax];
    var rule := RulesOf(g, t0.info.syntax)[i];
    var d := |t0.info.path|;
    if rule.subsyntax.None? && rule.end.Some? then
      && pass == Next && d < 4 && i < 255
      && t' == Tok(Add(t0.offset, Entry(lengths, 0)), t0.lastEmission, t0.runs, SetLevel(t0.state, d, i + 1),
                   t0.info.(ruleIdx := i + 1))
    else
      && t'.runs == Captured(syn, rule.labels, line, quick, t0.runs, t0.lastEmission, t0.lastEmission, lengths, n)
      && t'.offset == Shift(t0.offset, lengths, n)
      && t'.lastEmission == Shift(t0.lastEmission, lengths, n)
      && (rule.subsyntax.None? ==> pass == Next && t'.state == t0.state && t'.info == t0.info)
      && (rule.subsyntax.Some? ==>
            && (pass == Jump || pass == Deep) && (pass == Deep <==> d == 3) && d < 4 && i < 255
            && t'.state == SetLevel(t0.state, d, i + 1))
  }

  /** Lines 311-331 once rule `i` matched at the offset of `t`: the pending text, then the rule. */
  ghost predicate AppliedRule(g: Grammar, line: Bytes, quick: bool, t: Tok, i: nat, n: nat, lengths: seq<int>,
                              t': Tok, pass: Pass)
    requires t.info.syntax < |g.syntaxes| && i < |RulesOf(g, t.info.syntax)|
  {
    AppliedFrom(g, line, quick, Pending(g, line, quick, t), i, n, lengths, t', pass)
  }

  /** Lines 311-314 as a step: `Pending`, keeping the invariant. */
  method EmitPending(g: Grammar, root: nat, line: Bytes, quick: bool, t: Tok, ghost regular: bool)
      returns (t0: Tok)
    requires GrammarPre(g, root) && TokInv(g, root, line, quick, t, regular) && |line| < 0x8000_0000
    requires t.offset < |line|
    ensures t0 == Pending(g, line, quick, t)
    ensures TokInv(g, root, line, quick, t0, regular)
    ensures regular ==> t0.lastEmission == t0.offset
  {
    t0 := t;
    if t.lastEmission < t.offset {
      var runs := Emit(g, t.info.syntax, None, t.offset, t.lastEmission, line, t.runs, quick);
      t0 := t.(runs := runs, lastEmission := t.offset);
    }
  }

  /** Lines 315-331 as a step: `AppliedFrom`, keeping the invariant. */
  method ApplyRule(g: Grammar, root: nat, line: Bytes, quick: bool, t0: Tok, i: nat, n: nat, lengths: seq<int>,
                   ghost regular: bool)
      returns (t': Tok, pass: Pass)
    requires GrammarPre(g, root) && TokInv(g, root, line, quick, t0, regular) && |line| < 0x8000_0000
    requires t0.info.ruleIdx == 0 && i < |RulesOf(g, t0.info.syntax)| && t0.offset < |line|
    requires regular ==> n > 0 && Regular(t0.offset, n, lengths, |line|) && t0.lastEmission == t0.offset
    ensures AppliedFrom(g, line, quick, t0, i, n, lengths, t', pass)
    ensures pass != Deep ==> TokInv(g, root, line, quick, t', regular)
    ensures regular && pass != Deep ==> t'.offset <= |line|
    ensures Coalesced(t'.runs) && Positive(t'.runs) && (quick ==> t'.runs == [])
  {
    var syn := t0.info.syntax;
    RulesValid(g, syn);
    var rule := RulesOf(g, syn)[i];
    if rule.subsyntax.None? && rule.end.Some? {
      t' := EnterStateful(g, root, line, quick, t0, i, n, lengths, regular);
      return t', Next;
    }
    var runs, le, offset := EmitCaptures(g, syn, rule.labels, line, quick, t0.runs, t0.lastEmission, t0.offset,
                                         n, lengths, regular);
    var t1 := t0.(runs := runs, offset := offset, lastEmission := le);
    assert TokInv(g, root, line, quick, t1, regular);
    if rule.subsyntax.Some? {
      t', pass := EnterSub(g, root, line, quick, t1, i, regular);
      return t', pass;
    }
    return t1, Next;
  }

  /** Rule `i` matched at the offset with `n > 0` entries: `AppliedRule`, keeping the invariant. */
  method RuleMatched(g: Grammar, root: nat, line: Bytes, quick: bool, t: Tok, i: nat, n: nat, lengths: seq<int>,
                     ghost regular: bool)
      returns (t': Tok, pass: Pass, ghost regular': bool)
    requires GrammarPre(g, root) && TokInv(g, root, line, quick, t, regular) && |line| < 0x8000_0000
    requires t.info.ruleIdx == 0 && i < |RulesOf(g, t.info.syntax)| && t.offset < |line| && n > 0
    ensures AppliedRule(g, line, quick, t, i, n, lengths, t', pass)
    ensures regular' == (regular && Regular(t.offset, n, lengths, |line|))
    ensures pass != Deep ==> TokInv(g, root, line, quick, t', regular')
    ensures regular' && pass != Deep ==> t'.offset <= |line|
    ensures Coalesced(t'.runs) && Positive(t'.runs) && (quick ==> t'.runs == [])
  {
    regular' := regular && Regular(t.offset, n, lengths, |line|);
    var t0 := EmitPending(g, root, line, quick, t, regular');
    t', pass := ApplyRule(g, root, line, quick, t0, i, n, lengths, regular');
  }

  /**
   * What lines 307-337 do from `t` with `count` rules to try: the first
   * counted rule that matches, `i`, is applied; with none, the word at the
   * offset is skipped (`i == count`); a count beyond the rule table ends
   * the pass at index `|rules|` (`Overrun`). For literal patterns no rule
   * before `i` matches at the offset, rule `i` does, and its one entry is
   * the length of its text.
   */
  ghost predicate Scanned(g: Grammar, line: Bytes, quick: bool, fuel: nat, t: Tok, count: nat, t': Tok, pass: Pass,
                          i: nat, n: nat, lengths: seq<int>, regular: bool, regular': bool)
    requires ValidGrammar(g) && t.info.syntax < |g.syntaxes|
  {
    && i <= count && i <= |RulesOf(g, t.info.syntax)|
    && (pass == Overrun <==> i == |RulesOf(g, t.info.syntax)| < count)
    && (pass == Overrun ==> t' == t)
    && (count == 0 ==> i == 0)
    && (i == count ==>
          pass == Next && SkipsWord(line, t.offset, t'.offset) && t' == t.(offset := t'.offset) && regular' == regular)
    && (i < count && pass != Overrun ==>
          && n > 0 && AppliedRule(g, line, quick, t, i, n, lengths, t', pass)
          && regular' == (regular && Regular(t.offset, n, lengths, |line|)))
    && (LiteralGrammar(g, fuel) && Matcher.Ascii(line) ==>
          && regular' == regular
          && (forall j :: 0 <= j < i ==> !PatternAt(RulesOf(g, t.info.syntax)[j].enter, line, t.offset))
          && (i < count && pass != Overrun ==>
                && PatternAt(RulesOf(g, t.info.syntax)[i].enter, line, t.offset)
                && lengths == [|RulesOf(g, t.info.syntax)[i].enter.text|]))
  }

  /**
   * Lines 307-337, outside any rule: rules `0 .. count - 1` are tried in
   * order, with the outcome `Scanned` states. A count beyond the rule table
   * stops the pass at the first index past the table, which the C code
   * reads all the same.
   */
  method ScanRules(g: Grammar, root: nat, line: Bytes, quick: bool, t: Tok, count: nat, engine: RegexEngine,
                   fuel: nat, ghost regular: bool)
      returns (t': Tok, pass: Pass, i: nat, n: nat, lengths: seq<int>, complete: bool, ghost regular': bool)
    requires GrammarPre(g, root) && TokInv(g, root, line, quick, t, regular) && |line| < 0x8000_0000
    requires t.info.ruleIdx == 0 && t.offset < |line|
    ensures regular' ==> regular
    ensures Scanned(g, line, quick, fuel, t, count, t', pass, i, n, lengths, regular, regular')
    ensures count == 0 || (LiteralGrammar(g, fuel) && Matcher.Ascii(line)) ==> complete
    ensures pass != Deep && pass != Overrun ==> TokInv(g, root, line, quick, t', regular')
    ensures regular' && pass != Deep && pass != Overrun ==> t'.offset <= |line|
    ensures Coalesced(t'.runs) && Positive(t'.runs) && (quick ==> t'.runs == [])
  {
    var syn := t.info.syntax;
    RulesValid(g, syn);
    ghost var literal := LiteralGrammar(g, fuel) && Matcher.Ascii(line);
    i, n, lengths, complete := 0, 0, [], true;
    while i < count
      invariant i <= count && i <= |RulesOf(g, syn)|
      invariant (literal || count == 0) ==> complete
      invariant literal ==> forall j :: 0 <= j < i ==> !PatternAt(RulesOf(g, syn)[j].enter, line, t.offset)
    {
      if i == |RulesOf(g, syn)| {
        return t, Overrun, i, 0, [], complete, regular;
      }
      var rule := RulesOf(g, syn)[i];
      if literal {
        assert LiteralRule(g.syntaxes[syn].rules[i], fuel);
      }
      var c;
      n, lengths, c := MatchPattern(rule.enter, line, t.offset, engine, fuel);
      complete := complete && c;
      if n > 0 {
        if literal {
          LiteralRegular(t.offset, rule.enter.text, line);
        }
        t', pass, regular' := RuleMatched(g, root, line, quick, t, i, n, lengths, regular);
        return;
      }
      i := i + 1;
    }
    var o := SkipWord(line, t.offset);
    return t.(offset := o), Next, i, n, lengths, complete, regular;
  }

  /**
   * Line 341 as written: past the escape match and one byte more. When the
   * escape matches the last byte of a line this lands one past its end.
   */
  function EscapeSkipAsWritten(offset: Size, first: int): (r: Size)
    ensures 0 <= offset + first + 1 < SIZE ==> r == offset + first + 1
  {
    Add(offset, first + 1)
  }

  /** Line 341 kept within the line: the escaped byte is skipped only when there is one. */
  function EscapeSkip(offset: Size, first: int, length: nat): (r: Size)
    requires length < SIZE
    ensures r <= length
    ensures 0 <= first && offset + first + 1 <= length ==> r == offset + first + 1
    ensures 0 <= first && offset < length && offset + first + 1 < SIZE ==> offset < r
  {
    var o := EscapeSkipAsWritten(offset, first);
    if o > length then length else o
  }

  /**
   * An escape that matches the last byte of a line moves the offset past
   * the end, so the final run (line 358) covers one byte more than the line
   * has: after runs covering `start` bytes, the runs total `length + 1`.
   */
  lemma EscapeAtLineEnd(length: nat, start: nat, runs: seq<Run>, l: Bytes)
    requires 1 <= length < 0x8000_0000 && start < length && Total(runs) == start
    ensures EscapeSkipAsWritten(length - 1, 1) == length + 1
    ensures Total(Extend(runs, l, EscapeSkipAsWritten(length - 1, 1) - start)) == length + 1
    ensures EscapeSkip(length - 1, 1, length) == length
  {
    var o := EscapeSkipAsWritten(length - 1, 1);
    assert o == length + 1;
    ExtendKeeps(runs, l, o - start);
  }

  /** After `j` of the captures at lines 345-350: what the loop keeps. */
  ghost predicate EndSoFar(g: Grammar, syn: nat, labels: seq<Bytes>, line: Bytes, quick: bool, runs: seq<Run>,
                           lastEmission: Size, offset: Size, n: nat, lengths: seq<int>, regular: bool,
                           j: nat, runs': seq<Run>, lastEmission': Size, offset': Size)
    requires ValidGrammar(g) && syn < |g.syntaxes|
  {
    && j <= n
    && runs' == Captured(g.syntaxes[syn], labels, line, quick, runs, lastEmission, offset, lengths, j)
    && offset' == Shift(offset, lengths, j) && lastEmission' == (if j == 0 then lastEmission else offset')
    && Coalesced(runs') && Positive(runs') && (quick ==> runs' == [])
    && (regular ==> j <= |lengths| && offset' == offset + Sum(lengths[..j]) <= |line| && lastEmission' <= offset')
    && (regular ==> quick || Total(runs') == lastEmission')
  }

  lemma EndStart(g: Grammar, syn: nat, labels: seq<Bytes>, line: Bytes, quick: bool, runs: seq<Run>,
                 lastEmission: Size, offset: Size, n: nat, lengths: seq<int>, regular: bool)
    requires ValidGrammar(g) && syn < |g.syntaxes|
    requires Coalesced(runs) && Positive(runs) && (quick ==> runs == [])
    requires regular ==> Regular(offset, n, lengths, |line|) && lastEmission <= offset <= |line|
    requires regular ==> quick || Total(runs) == lastEmission
    ensures EndSoFar(g, syn, labels, line, quick, runs, lastEmission, offset, n, lengths, regular,
                     0, runs, lastEmission, offset)
  {
    assert lengths[..0] == [];
  }

  lemma EndDone(g: Grammar, syn: nat, labels: seq<Bytes>, line: Bytes, quick: bool, runs: seq<Run>,
                lastEmission: Size, offset: Size, n: nat, lengths: seq<int>, regular: bool,
                runs': seq<Run>, lastEmission': Size, offset': Size)
    requires ValidGrammar(g) && syn < |g.syntaxes|
    requires regular ==> n == |lengths|
    requires EndSoFar(g, syn, labels, line, quick, runs, lastEmission, offset, n, lengths, regular,
                      n, runs', lastEmission', offset')
    ensures runs' == Captured(g.syntaxes[syn], labels, line, quick, runs, lastEmission, offset, lengths, n)
    ensures offset' == Shift(offset, lengths, n) && lastEmission' == (if n == 0 then lastEmission else offset')
    ensures Coalesced(runs') && Positive(runs') && (quick ==> runs' == [])
    ensures regular ==>
      offset' == offset + Sum(lengths) <= |line| && lastEmission' <= offset' && (quick || Total(runs') == lastEmission')
  {
    SumAll(lengths, n, regular);
  }

  /** One capture of lines 345-350. */
  method EndStep(g: Grammar, syn: nat, labels: seq<Bytes>, line: Bytes, quick: bool, runs: seq<Run>,
                 lastEmission: Size, offset: Size, n: nat, lengths: seq<int>, ghost regular: bool,
                 j: nat, runs': seq<Run>, lastEmission': Size, offset': Size)
      returns (runs'': seq<Run>, lastEmission'': Size, offset'': Size)
    requires ValidGrammar(g) && syn < |g.syntaxes| && |line| < 0x8000_0000
    requires regular ==> Regular(offset, n, lengths, |line|)
    requires EndSoFar(g, syn, labels, line, quick, runs, lastEmission, offset, n, lengths, regular,
                      j, runs', lastEmission', offset') && j < n
    ensures EndSoFar(g, syn, labels, line, quick, runs, lastEmission, offset, n, lengths, regular,
                     j + 1, runs'', lastEmission'', offset'')
  {
    if regular {
      RegularStep(offset, n, lengths, |line|, j);
    }
    offset'' := Add(offset', Entry(lengths, j));
    runs'' := EmitCapture(g, syn, labels, line, quick, runs, lastEmission, offset, lengths, j, runs',
                          lastEmission', offset'');
    lastEmission'' := offset'';
  }

  /**
   * Lines 345-350: each entry of the end match moves the offset on, and the
   * span from the last emission to the new offset is emitted with the
   * entry's label (so the first span also covers the text between the
   * rule's start and the end match).
   */
  method EmitEnd(g: Grammar, syn: nat, labels: seq<Bytes>, line: Bytes, quick: bool, runs: seq<Run>,
                 lastEmission: Size, offset: Size, n: nat, lengths: seq<int>, ghost regular: bool)
      returns (runs': seq<Run>, lastEmission': Size, offset': Size)
    requires ValidGrammar(g) && syn < |g.syntaxes| && |line| < 0x8000_0000
    requires Coalesced(runs) && Positive(runs) && (quick ==> runs == [])
    requires regular ==> Regular(offset, n, lengths, |line|) && lastEmission <= offset <= |line|
    requires regular ==> quick || Total(runs) == lastEmission
    ensures runs' == Captured(g.syntaxes[syn], labels, line, quick, runs, lastEmission, offset, lengths, n)
    ensures offset' == Shift(offset, lengths, n) && lastEmission' == (if n == 0 then lastEmission else offset')
    ensures Coalesced(runs') && Positive(runs') && (quick ==> runs' == [])
    ensures regular ==>
      offset' == offset + Sum(lengths) <= |line| && lastEmission' <= offset' && (quick || Total(runs') == lastEmission')
  {
    var j := 0;
    runs', lastEmission', offset' := runs, lastEmission, offset;
    EndStart(g, syn, labels, line, quick, runs, lastEmission, offset, n, lengths, regular);
    while j < n
      invariant j <= n
      invariant EndSoFar(g, syn, labels, line, quick, runs, lastEmission, offset, n, lengths, regular,
                         j, runs', lastEmission', offset')
      decreases n - j
    {
      runs', lastEmission', offset' := EndStep(g, syn, labels, line, quick, runs, lastEmission, offset, n,
                                               lengths, regular, j, runs', lastEmission', offset');
      j := j + 1;
    }
    EndDone(g, syn, labels, line, quick, runs, lastEmission, offset, n, lengths, regular, runs', lastEmission', offset');
  }


  /** Lines 350-352: the rule at the current level is left. */
  method LeaveCurrent(g: Grammar, root: nat, line: Bytes, quick: bool, t: Tok, ghost regular: bool) returns (t': Tok)
    requires GrammarPre(g, root) && TokInv(g, root, line, quick, t, regular)
    ensures TokInv(g, root, line, quick, t', regular)
    ensures t'.state == SetLevel(t.state, |t.info.path|, 0)
    ensures t'.info == t.info.(ruleIdx := 0)
    ensures t'.offset == t.offset && t'.lastEmission == t.lastEmission && t'.runs == t.runs
  {
    var d := |t.info.path|;
    var s := SetLevel(t.state, d, 0);
    LevelsSet(t.state, d, 0);
    LeaveRule(g, root, Levels(t.state));
    t' := t.(state := s, info := Decode(g, root, Levels(s)));
  }

  /** Line 341 as a step: the offset moves past the escape match and one byte more. */
  method EscapeMatched(g: Grammar, root: nat, line: Bytes, quick: bool, t: Tok, n: nat, lengths: seq<int>,
                       corrected: bool, ghost regular: bool)
      returns (t': Tok)
    requires GrammarPre(g, root) && TokInv(g, root, line, quick, t, regular) && |line| < 0x8000_0000
    requires t.offset < |line| && n > 0
    requires regular ==> Regular(t.offset, n, lengths, |line|)
    ensures t' == t.(offset := if corrected then EscapeSkip(t.offset, Entry(lengths, 0), |line|)
                               else EscapeSkipAsWritten(t.offset, Entry(lengths, 0)))
    ensures TokInv(g, root, line, quick, t', regular)
    ensures corrected && regular ==> t'.offset <= |line|
  {
    if regular {
      assert lengths[..1] == [lengths[0]];
      assert Sum([lengths[0]]) == Sum([]) + lengths[0];
    }
    var o := if corrected then EscapeSkip(t.offset, Entry(lengths, 0), |line|)
             else EscapeSkipAsWritten(t.offset, Entry(lengths, 0));
    t' := t.(offset := o);
  }

  /** Lines 345-352 as a step: the end match's captures are emitted and the rule is left. */
  method EndMatched(g: Grammar, root: nat, line: Bytes, quick: bool, t: Tok, n: nat, lengths: seq<int>,
                    ghost regular: bool)
      returns (t': Tok)
    requires GrammarPre(g, root) && TokInv(g, root, line, quick, t, regular) && |line| < 0x8000_0000
    requires t.info.ruleIdx != 0 && t.offset < |line| && n > 0
    requires regular ==> Regular(t.offset, n, lengths, |line|)
    ensures TokInv(g, root, line, quick, t', regular)
    ensures regular ==> t'.offset <= |line|
    ensures var rule := RulesOf(g, t.info.syntax)[t.info.ruleIdx - 1];
      && t'.runs == Captured(g.syntaxes[t.info.syntax], rule.labels, line, quick, t.runs,
                             t.lastEmission, t.offset, lengths, n)
      && t'.offset == Shift(t.offset, lengths, n) && t'.lastEmission == t'.offset
      && t'.state == SetLevel(t.state, |t.info.path|, 0) && t'.info == t.info.(ruleIdx := 0)
  {
    var syn := t.info.syntax;
    var rule := RulesOf(g, syn)[t.info.ruleIdx - 1];
    var runs, le, offset := EmitEnd(g, syn, rule.labels, line, quick, t.runs, t.lastEmission, t.offset, n, lengths, regular);
    var t1 := t.(runs := runs, lastEmission := le, offset := offset);
    assert TokInv(g, root, line, quick, t1, regular);
    t' := LeaveCurrent(g, root, line, quick, t1, regular);
  }

  /**
   * What lines 338-356 do inside rule `ruleIdx - 1`, from `t`: a match of
   * its escape pattern skips past the match and one byte more (`escaped`),
   * kept within the line when `corrected`; otherwise a match of its end
   * pattern emits the end's captures from the last emission and leaves the
   * rule; and anything else moves one byte on. For literal patterns the
   * escape and the end are taken exactly when they occur at the offset,
   * and the one entry of the match is the length of the pattern's text.
   */
  ghost predicate Inside(g: Grammar, line: Bytes, quick: bool, fuel: nat, corrected: bool, t: Tok, t': Tok,
                         escaped: bool, n: nat, lengths: seq<int>, regular: bool, regular': bool)
    requires ValidGrammar(g) && t.info.syntax < |g.syntaxes| && 0 < t.info.ruleIdx <= |RulesOf(g, t.info.syntax)|
    requires |t.info.path| < 4 && t.offset < |line| < 0x8000_0000
  {
    var rule := RulesOf(g, t.info.syntax)[t.info.ruleIdx - 1];
    && (escaped ==>
          && rule.escape.Some? && n > 0
          && t' == t.(offset := if corrected then EscapeSkip(t.offset, Entry(lengths, 0), |line|)
                                else EscapeSkipAsWritten(t.offset, Entry(lengths, 0))))
    && (!escaped && n > 0 ==>
          && t'.runs == Captured(g.syntaxes[t.info.syntax], rule.labels, line, quick, t.runs,
                                 t.lastEmission, t.offset, lengths, n)
          && t'.offset == Shift(t.offset, lengths, n) && t'.lastEmission == t'.offset
          && t'.state == SetLevel(t.state, |t.info.path|, 0) && t'.info == t.info.(ruleIdx := 0))
    && (!escaped && n == 0 ==> t' == t.(offset := t.offset + 1))
    && (LiteralGrammar(g, fuel) && Matcher.Ascii(line) ==>
          && regular' == regular
          && (escaped <==> rule.escape.Some? && PatternAt(rule.escape.value, line, t.offset))
          && (escaped ==> n == 1 && lengths == [|rule.escape.value.text|])
          && (!escaped ==> rule.end.Some? && (n > 0 <==> PatternAt(rule.end.value, line, t.offset)))
          && (!escaped && n > 0 ==> n == 1 && lengths == [|rule.end.value.text|]))
  }

  /** Lines 340-341: the escape of the current rule matched with entries `lengths`. */
  method InsideEscape(g: Grammar, root: nat, line: Bytes, quick: bool, t: Tok, fuel: nat, corrected: bool, n: nat,
                      lengths: seq<int>, ghost regular: bool)
      returns (t': Tok, ghost regular': bool)
    requires GrammarPre(g, root) && TokInv(g, root, line, quick, t, regular) && |line| < 0x8000_0000
    requires t.info.ruleIdx != 0 && t.offset < |line| && n > 0
    requires RulesOf(g, t.info.syntax)[t.info.ruleIdx - 1].escape.Some?
    requires LiteralGrammar(g, fuel) && Matcher.Ascii(line) ==>
      var e := RulesOf(g, t.info.syntax)[t.info.ruleIdx - 1].escape.value;
      PatternAt(e, line, t.offset) && lengths == [|e.text|] && n == 1
    ensures regular' ==> regular
    ensures TokInv(g, root, line, quick, t', regular')
    ensures corrected && regular' ==> t'.offset <= |line|
    ensures Inside(g, line, quick, fuel, corrected, t, t', true, n, lengths, regular, regular')
  {
    var rule := RulesOf(g, t.info.syntax)[t.info.ruleIdx - 1];
    if LiteralGrammar(g, fuel) && Matcher.Ascii(line) {
      LiteralRegular(t.offset, rule.escape.value.text, line);
    }
    regular' := regular && Regular(t.offset, n, lengths, |line|);
    t' := EscapeMatched(g, root, line, quick, t, n, lengths, corrected, regular');
  }

  /** Lines 344-351: the end of the current rule matched with entries `lengths`. */
  method InsideClose(g: Grammar, root: nat, line: Bytes, quick: bool, t: Tok, fuel: nat, corrected: bool, n: nat,
                     lengths: seq<int>, ghost regular: bool)
      returns (t': Tok, ghost regular': bool)
    requires GrammarPre(g, root) && TokInv(g, root, line, quick, t, regular) && |line| < 0x8000_0000
    requires t.info.ruleIdx != 0 && t.offset < |line| && n > 0
    requires RulesOf(g, t.info.syntax)[t.info.ruleIdx - 1].end.Some?
    requires LiteralGrammar(g, fuel) && Matcher.Ascii(line) ==>
      var rule := RulesOf(g, t.info.syntax)[t.info.ruleIdx - 1];
      && !(rule.escape.Some? && PatternAt(rule.escape.value, line, t.offset))
      && PatternAt(rule.end.value, line, t.offset) && lengths == [|rule.end.value.text|] && n == 1
    ensures regular' ==> regular
    ensures TokInv(g, root, line, quick, t', regular')
    ensures corrected && regular' ==> t'.offset <= |line|
    ensures Inside(g, line, quick, fuel, corrected, t, t', false, n, lengths, regular, regular')
  {
    var rule := RulesOf(g, t.info.syntax)[t.info.ruleIdx - 1];
    if LiteralGrammar(g, fuel) && Matcher.Ascii(line) {
      LiteralRegular(t.offset, rule.end.value.text, line);
    }
    regular' := regular && Regular(t.offset, n, lengths, |line|);
    t' := EndMatched(g, root, line, quick, t, n, lengths, regular');
  }

  /** Lines 343-355: the escape of the current rule did not match; its end is tried. */
  method InsideEnd(g: Grammar, root: nat, line: Bytes, quick: bool, t: Tok, engine: RegexEngine, fuel: nat,
                   corrected: bool, ghost regular: bool)
      returns (t': Tok, n: nat, lengths: seq<int>, complete: bool, ghost regular': bool)
    requires GrammarPre(g, root) && TokInv(g, root, line, quick, t, regular) && |line| < 0x8000_0000
    requires t.info.ruleIdx != 0 && t.offset < |line|
    requires LiteralGrammar(g, fuel) && Matcher.Ascii(line) ==>
      var rule := RulesOf(g, t.info.syntax)[t.info.ruleIdx - 1];
      !(rule.escape.Some? && PatternAt(rule.escape.value, line, t.offset))
    ensures regular' ==> regular
    ensures TokInv(g, root, line, quick, t', regular')
    ensures corrected && regular' ==> t'.offset <= |line|
    ensures Inside(g, line, quick, fuel, corrected, t, t', false, n, lengths, regular, regular')
    ensures LiteralGrammar(g, fuel) && Matcher.Ascii(line) ==> complete
  {
    var syn := t.info.syntax;
    RulesValid(g, syn);
    var rule := RulesOf(g, syn)[t.info.ruleIdx - 1];
    ghost var literal := LiteralGrammar(g, fuel) && Matcher.Ascii(line);
    if literal {
      assert LiteralRule(g.syntaxes[syn].rules[t.info.ruleIdx - 1], fuel);
    }
    n, lengths, complete := MatchPattern(rule.end.value, line, t.offset, engine, fuel);
    if n > 0 {
      t', regular' := InsideClose(g, root, line, quick, t, fuel, corrected, n, lengths, regular);
      return;
    }
    return t.(offset := t.offset + 1), n, lengths, complete, regular;
  }

  /** Lines 338-356, inside rule `ruleIdx - 1`, with the outcome `Inside` states. */
  method InsideRule(g: Grammar, root: nat, line: Bytes, quick: bool, t: Tok, engine: RegexEngine, fuel: nat,
                    corrected: bool, ghost regular: bool)
      returns (t': Tok, escaped: bool, n: nat, lengths: seq<int>, complete: bool, ghost regular': bool)
    requires GrammarPre(g, root) && TokInv(g, root, line, quick, t, regular) && |line| < 0x8000_0000
    requires t.info.ruleIdx != 0 && t.offset < |line|
    ensures regular' ==> regular
    ensures TokInv(g, root, line, quick, t', regular')
    ensures corrected && regular' ==> t'.offset <= |line|
    ensures Inside(g, line, quick, fuel, corrected, t, t', escaped, n, lengths, regular, regular')
    ensures LiteralGrammar(g, fuel) && Matcher.Ascii(line) ==> complete
  {
    var syn := t.info.syntax;
    RulesValid(g, syn);
    var rule := RulesOf(g, syn)[t.info.ruleIdx - 1];
    if LiteralGrammar(g, fuel) && Matcher.Ascii(line) {
      assert LiteralRule(g.syntaxes[syn].rules[t.info.ruleIdx - 1], fuel);
    }
    n, lengths, complete := 0, [], true;
    if rule.escape.Some? {
      n, lengths, complete := MatchPattern(rule.escape.value, line, t.offset, engine, fuel);
    }
    if n != 0 {
      t', regular' := InsideEscape(g, root, line, quick, t, fuel, corrected, n, lengths, regular);
      return t', true, n, lengths, complete, regular';
    }
    var c;
    t', n, lengths, c, regular' := InsideEnd(g, root, line, quick, t, engine, fuel, corrected, regular);
    complete := complete && c;
    escaped := false;
  }

  /** A line of at most `fuel` bytes, in the root syntax outside any rule, with no rules there. */
  ghost predicate Bare(g: Grammar, root: nat, line: Bytes, state0: State, quick: bool, fuel: nat)
    requires GrammarPre(g, root)
  {
    0 < |line| <= fuel && !quick && Decode(g, root, Levels(state0)) == Info(0, [], root) && |RulesOf(g, root)| == 0
  }

  /** What the loop of line 289 keeps, with `steps` passes of fuel left. */
  ghost predicate LineInv(g: Grammar, root: nat, line: Bytes, state0: State, quick: bool, fuel: nat,
                          corrected: bool, t: Tok, regular: bool, complete: bool, steps: nat)
    requires GrammarPre(g, root)
  {
    && TokInv(g, root, line, quick, t, regular)
    && (corrected && regular ==> t.offset <= |line|)
    && (LiteralGrammar(g, fuel) && Matcher.Ascii(line) ==> regular && complete)
    && (|line| == 0 ==> t == Tok(0, 0, [], state0, Decode(g, root, Levels(state0))) && complete)
    && (Bare(g, root, line, state0, quick, fuel) ==>
          && t == Tok(t.offset, 0, [], state0, Decode(g, root, Levels(state0)))
          && complete && regular && t.offset <= |line| && steps + t.offset >= fuel)
  }

  /** One pass of the loop of line 289 with fuel left, keeping `LineInv`. */
  method LineStep(g: Grammar, root: nat, line: Bytes, state0: State, quick: bool, engine: RegexEngine, fuel: nat,
                  corrected: bool, t: Tok, ghost regular: bool, complete: bool, steps: nat)
      returns (t': Tok, pass: Pass, ghost regular': bool, complete': bool)
    requires GrammarPre(g, root) && |line| < 0x8000_0000 && t.offset < |line| && steps > 0
    requires LineInv(g, root, line, state0, quick, fuel, corrected, t, regular, complete, steps)
    ensures pass != Deep && pass != Overrun ==>
      LineInv(g, root, line, state0, quick, fuel, corrected, t', regular', complete', steps - 1)
    ensures Coalesced(t'.runs) && Positive(t'.runs) && (quick ==> t'.runs == [])
    ensures corrected ==> pass != Overrun
    ensures LiteralGrammar(g, fuel) && Matcher.Ascii(line) ==> regular'
    ensures Bare(g, root, line, state0, quick, fuel) ==> pass == Next
  {
    var c; ghost var tr;
    t', pass, c, regular', tr := LinePass(g, root, line, quick, t, engine, fuel, corrected, regular);
    complete' := complete && c;
  }

  /** Lines 358-359 after the loop: `FinishLine`, with what the loop kept. */
  method LineEnd(g: Grammar, root: nat, line: Bytes, state0: State, quick: bool, fuel: nat, corrected: bool,
                 t: Tok, ghost regular: bool, complete: bool, steps: nat)
      returns (runs: seq<Run>, state: State)
    requires GrammarPre(g, root) && |line| < 0x8000_0000 && t.offset >= |line|
    requires LineInv(g, root, line, state0, quick, fuel, corrected, t, regular, complete, steps)
    ensures Coalesced(runs) && Positive(runs) && (quick ==> runs == [])
    ensures ValidState(g, root, state) && Levels(state) == Levels(t.state)
    ensures regular && !quick && |line| + 1 < 0x8000_0000 ==> |line| <= Total(runs) <= |line| + 1
    ensures regular && !quick && corrected ==> Total(runs) == |line|
    ensures |line| == 0 ==> runs == [] && Levels(state) == Levels(state0)
    ensures Bare(g, root, line, state0, quick, fuel) ==> runs == [Run(NORMAL, |line|)] && Levels(state) == Levels(state0)
  {
    runs, state := FinishLine(g, root, line, quick, t, regular);
  }

  /**
   * `tokenize_line`: the runs of one line and the state after it. Runs never
   * carry the same label twice in a row and are all positive; quick mode
   * emits none. When the line is processed to its end, the state is again
   * one the tokenizer can be in and, while every capture list used was
   * regular (as it is for literal patterns), the runs cover the line, plus
   * one byte when an escape matched its last byte. `corrected` runs the
   * pass with the rule count of the syntax it scans and the escape skip
   * kept within the line; the runs then cover the line exactly, and no rule
   * beyond a table is read. A root syntax without rules gives one "normal"
   * run. `fuel` bounds the passes of the loop and each pattern match.
   */
  method TokenizeLine(g: Grammar, root: nat, line: Bytes, state0: State, quick: bool, engine: RegexEngine,
                      fuel: nat, corrected: bool)
      returns (runs: seq<Run>, state: State, status: Status, ghost regular: bool)
    requires GrammarPre(g, root) && ValidState(g, root, state0) && |line| < 0x8000_0000
    ensures Coalesced(runs) && Positive(runs)
    ensures quick ==> runs == []
    ensures status.Finished? ==> ValidState(g, root, state)
    ensures status.Finished? && regular && !quick && |line| + 1 < 0x8000_0000 ==> |line| <= Total(runs) <= |line| + 1
    ensures status.Finished? && regular && !quick && corrected ==> Total(runs) == |line|
    ensures corrected ==> !status.PastRules?
    ensures LiteralGrammar(g, fuel) && Matcher.Ascii(line) ==> regular
    ensures |line| == 0 ==> runs == [] && status.Finished? && Levels(state) == Levels(state0)
    ensures 0 < |line| <= fuel && !quick && Decode(g, root, Levels(state0)) == Info(0, [], root) &&
            |RulesOf(g, root)| == 0 ==>
      status.Finished? && runs == [Run(NORMAL, |line|)] && Levels(state) == Levels(state0)
  {
    var t := Tok(0, 0, [], state0, Decode(g, root, Levels(state0)));
    regular := true;
    var complete := true;
    var steps: nat := fuel;
    while t.offset < |line|
      invariant LineInv(g, root, line, state0, quick, fuel, corrected, t, regular, complete, steps)
      decreases steps
    {
      if steps == 0 {
        return t.runs, t.state, OutOfFuel, regular;
      }
      var pass;
      t, pass, regular, complete := LineStep(g, root, line, state0, quick, engine, fuel, corrected, t, regular,
                                             complete, steps);
      steps := steps - 1;
      if pass == Deep {
        return t.runs, t.state, TooDeep, regular;
      }
      if pass == Overrun {
        return t.runs, t.state, PastRules, regular;
      }
    }
    runs, state := LineEnd(g, root, line, state0, quick, fuel, corrected, t, regular, complete, steps);
    status := if complete then Finished else OutOfFuel;
  }


  /**
   * The intermediate values of one pass: the variables after the parent's
   * end check (`checked`, and whether it left the subsyntax), the rule
   * count, the index of the rule applied, whether the escape matched, and
   * the last match's entries.
   */
  datatype PassTrace = PassTrace(checked: Tok, exited: bool, count: nat, rule: nat, escaped: bool, n: nat,
                                 lengths: seq<int>)

  /**
   * One pass of the loop of line 289 from `t` to `t'`: the parent's end
   * check, then, outside any rule, the rules of the syntax now current
   * with the count taken before the check (line 290; after it when
   * `corrected`), or else the end of the current rule.
   */
  ghost predicate Passed(g: Grammar, root: nat, line: Bytes, quick: bool, fuel: nat, corrected: bool, t: Tok,
                         t': Tok, pass: Pass, tr: PassTrace, regular: bool, regular': bool)
  {
    var t1 := tr.checked;
    && GrammarPre(g, root) && ValidState(g, root, t.state) && t.info == Decode(g, root, Levels(t.state))
    && t.offset < |line| < 0x8000_0000
    && ParentChecked(g, root, line, fuel, t, t1, tr.exited)
    && ValidState(g, root, t1.state) && t1.info == Decode(g, root, Levels(t1.state))
    && tr.count == RuleCount(g, if corrected then t1.info.syntax else t.info.syntax, quick)
    && (t1.info.ruleIdx == 0 ==>
          Scanned(g, line, quick, fuel, t1, tr.count, t', pass, tr.rule, tr.n, tr.lengths, regular, regular'))
    && (t1.info.ruleIdx != 0 ==>
          pass == Next && Inside(g, line, quick, fuel, corrected, t1, t', tr.escaped, tr.n, tr.lengths, regular, regular'))
  }

  /** A pass outside any rule once the end check is done: the check, then `Scanned` with the count taken. */
  lemma PassedRules(g: Grammar, root: nat, line: Bytes, quick: bool, fuel: nat, corrected: bool, t: Tok, t1: Tok,
                    exited: bool, count: nat, i: nat, n: nat, lengths: seq<int>, t': Tok, pass: Pass, regular: bool,
                    regular': bool)
    requires GrammarPre(g, root) && ValidState(g, root, t.state) && t.info == Decode(g, root, Levels(t.state))
    requires t.offset < |line| < 0x8000_0000
    requires ParentChecked(g, root, line, fuel, t, t1, exited)
    requires ValidState(g, root, t1.state) && t1.info == Decode(g, root, Levels(t1.state))
    requires count == RuleCount(g, if corrected then t1.info.syntax else t.info.syntax, quick)
    requires t1.info.ruleIdx == 0
    requires Scanned(g, line, quick, fuel, t1, count, t', pass, i, n, lengths, regular, regular')
    ensures Passed(g, root, line, quick, fuel, corrected, t, t', pass, PassTrace(t1, exited, count, i, false, n, lengths),
                   regular, regular')
  {
  }

  /** A pass inside a rule once the end check is done: the check, then `Inside`. */
  lemma PassedInside(g: Grammar, root: nat, line: Bytes, quick: bool, fuel: nat, corrected: bool, t: Tok, t1: Tok,
                     exited: bool, count: nat, escaped: bool, n: nat, lengths: seq<int>, t': Tok, regular: bool,
                     regular': bool)
    requires GrammarPre(g, root) && ValidState(g, root, t.state) && t.info == Decode(g, root, Levels(t.state))
    requires t.offset < |line| < 0x8000_0000
    requires ParentChecked(g, root, line, fuel, t, t1, exited)
    requires ValidState(g, root, t1.state) && t1.info == Decode(g, root, Levels(t1.state))
    requires count == RuleCount(g, if corrected then t1.info.syntax else t.info.syntax, quick)
    requires t1.info.ruleIdx != 0
    requires Inside(g, line, quick, fuel, corrected, t1, t', escaped, n, lengths, regular, regular')
    ensures Passed(g, root, line, quick, fuel, corrected, t, t', Next, PassTrace(t1, exited, count, 0, escaped, n, lengths),
                   regular, regular')
  {
  }

  /** In the root syntax outside any rule, with no rules there, a pass only skips a word. */
  lemma PassedBare(g: Grammar, root: nat, line: Bytes, quick: bool, fuel: nat, corrected: bool, t: Tok, t': Tok,
                   pass: Pass, tr: PassTrace, regular: bool, regular': bool)
    requires Passed(g, root, line, quick, fuel, corrected, t, t', pass, tr, regular, regular')
    requires t.info.path == [] && t.info.ruleIdx == 0 && |RulesOf(g, t.info.syntax)| == 0
    ensures tr.count == 0 && t.info.ruleIdx == 0
    ensures pass == Next && regular' == regular && t' == t.(offset := t'.offset) && SkipsWord(line, t.offset, t'.offset)
  {
    assert tr.checked == t;
  }

  /** Lines 306-337 after the end check `t1` of a pass from `t`: the pass outside any rule. */
  method PassRules(g: Grammar, root: nat, line: Bytes, quick: bool, t: Tok, t1: Tok, exited: bool, stale: nat,
                   engine: RegexEngine, fuel: nat, corrected: bool, ghost regular: bool)
      returns (t': Tok, pass: Pass, complete: bool, ghost regular': bool, ghost tr: PassTrace)
    requires GrammarPre(g, root) && TokInv(g, root, line, quick, t, regular) && |line| < 0x8000_0000
    requires t.offset < |line| && stale == RuleCount(g, t.info.syntax, quick)
    requires TokInv(g, root, line, quick, t1, regular) && ParentChecked(g, root, line, fuel, t, t1, exited)
    requires t1.info.ruleIdx == 0
    ensures Passed(g, root, line, quick, fuel, corrected, t, t', pass, tr, regular, regular')
    ensures regular' ==> regular
    ensures pass != Deep && pass != Overrun ==> TokInv(g, root, line, quick, t', regular')
    ensures corrected && regular' && pass != Deep && pass != Overrun ==> t'.offset <= |line|
    ensures Coalesced(t'.runs) && Positive(t'.runs) && (quick ==> t'.runs == [])
    ensures corrected ==> pass != Overrun
    ensures tr.count == 0 || (LiteralGrammar(g, fuel) && Matcher.Ascii(line)) ==> complete
    ensures LiteralGrammar(g, fuel) && Matcher.Ascii(line) ==> regular' == regular
  {
    var count := if corrected then RuleCount(g, t1.info.syntax, quick) else stale;
    var i, n, lengths;
    t', pass, i, n, lengths, complete, regular' := ScanRules(g, root, line, quick, t1, count, engine, fuel, regular);
    tr := PassTrace(t1, exited, count, i, false, n, lengths);
    PassedRules(g, root, line, quick, fuel, corrected, t, t1, exited, count, i, n, lengths, t', pass, regular, regular');
  }

  /** Lines 338-356 after the end check `t1` of a pass from `t`: the pass inside a rule. */
  method PassInside(g: Grammar, root: nat, line: Bytes, quick: bool, t: Tok, t1: Tok, exited: bool, stale: nat,
                    engine: RegexEngine, fuel: nat, corrected: bool, ghost regular: bool)
      returns (t': Tok, complete: bool, ghost regular': bool, ghost tr: PassTrace)
    requires GrammarPre(g, root) && TokInv(g, root, line, quick, t, regular) && |line| < 0x8000_0000
    requires t.offset < |line| && stale == RuleCount(g, t.info.syntax, quick)
    requires TokInv(g, root, line, quick, t1, regular) && ParentChecked(g, root, line, fuel, t, t1, exited)
    requires t1.info.ruleIdx != 0
    ensures Passed(g, root, line, quick, fuel, corrected, t, t', Next, tr, regular, regular')
    ensures regular' ==> regular
    ensures TokInv(g, root, line, quick, t', regular')
    ensures corrected && regular' ==> t'.offset <= |line|
    ensures LiteralGrammar(g, fuel) && Matcher.Ascii(line) ==> complete && regular' == regular
  {
    var escaped, n, lengths;
    t', escaped, n, lengths, complete, regular' := InsideRule(g, root, line, quick, t1, engine, fuel, corrected, regular);
    tr := PassTrace(t1, exited, stale, 0, escaped, n, lengths);
    PassedInside(g, root, line, quick, fuel, corrected, t, t1, exited, stale, escaped, n, lengths, t', regular, regular');
  }

  /** Lines 306-356 after the end check `t1` of a pass from `t`: the rules, or the end of the current rule. */
  method AfterCheck(g: Grammar, root: nat, line: Bytes, quick: bool, t: Tok, t1: Tok, exited: bool, stale: nat,
                    engine: RegexEngine, fuel: nat, corrected: bool, ghost regular: bool)
      returns (t': Tok, pass: Pass, complete: bool, ghost regular': bool, ghost tr: PassTrace)
    requires GrammarPre(g, root) && TokInv(g, root, line, quick, t, regular) && |line| < 0x8000_0000
    requires t.offset < |line| && stale == RuleCount(g, t.info.syntax, quick)
    requires TokInv(g, root, line, quick, t1, regular) && ParentChecked(g, root, line, fuel, t, t1, exited)
    ensures Passed(g, root, line, quick, fuel, corrected, t, t', pass, tr, regular, regular')
    ensures regular' ==> regular
    ensures pass != Deep && pass != Overrun ==> TokInv(g, root, line, quick, t', regular')
    ensures corrected && regular' && pass != Deep && pass != Overrun ==> t'.offset <= |line|
    ensures Coalesced(t'.runs) && Positive(t'.runs) && (quick ==> t'.runs == [])
    ensures corrected ==> pass != Overrun
    ensures (t1.info.ruleIdx == 0 && tr.count == 0) || (LiteralGrammar(g, fuel) && Matcher.Ascii(line)) ==> complete
    ensures LiteralGrammar(g, fuel) && Matcher.Ascii(line) ==> regular' == regular
  {
    if t1.info.ruleIdx == 0 {
      t', pass, complete, regular', tr := PassRules(g, root, line, quick, t, t1, exited, stale, engine, fuel, corrected,
                                                    regular);
    } else {
      t', complete, regular', tr := PassInside(g, root, line, quick, t, t1, exited, stale, engine, fuel, corrected,
                                               regular);
      pass := Next;
    }
  }

  /**
   * One pass of the loop of line 289, as `Passed` states. As written the
   * count is that of the syntax at the top of the pass, even when the end
   * check has left it; `corrected` takes the count of the syntax the rules
   * are read from, and then no rule beyond a table is read.
   */
  method LinePass(g: Grammar, root: nat, line: Bytes, quick: bool, t: Tok, engine: RegexEngine, fuel: nat,
                  corrected: bool, ghost regular: bool)
      returns (t': Tok, pass: Pass, complete: bool, ghost regular': bool, ghost tr: PassTrace)
    requires GrammarPre(g, root) && TokInv(g, root, line, quick, t, regular) && |line| < 0x8000_0000
    requires t.offset < |line|
    ensures Passed(g, root, line, quick, fuel, corrected, t, t', pass, tr, regular, regular')
    ensures regular' ==> regular
    ensures pass != Deep && pass != Overrun ==> TokInv(g, root, line, quick, t', regular')
    ensures corrected && regular' && pass != Deep && pass != Overrun ==> t'.offset <= |line|
    ensures Coalesced(t'.runs) && Positive(t'.runs) && (quick ==> t'.runs == [])
    ensures corrected ==> pass != Overrun
    ensures LiteralGrammar(g, fuel) && Matcher.Ascii(line) ==> complete && regular' == regular
    ensures t.info.path == [] && t.info.ruleIdx == 0 && |RulesOf(g, t.info.syntax)| == 0 ==>
      && pass == Next && complete && regular' == regular
      && t' == t.(offset := t'.offset) && SkipsWord(line, t.offset, t'.offset)
  {
    var stale := RuleCount(g, t.info.syntax, quick);
    var t1, exited, c;
    t1, exited, complete := ParentCheck(g, root, line, quick, t, engine, fuel, regular);
    t', pass, c, regular', tr := AfterCheck(g, root, line, quick, t, t1, exited, stale, engine, fuel, corrected, regular);
    complete := complete && c;
    if t.info.path == [] && t.info.ruleIdx == 0 && |RulesOf(g, t.info.syntax)| == 0 {
      PassedBare(g, root, line, quick, fuel, corrected, t, t', pass, tr, regular, regular');
    }
  }

  /**
   * Lines 358-359: the rest of the line is emitted, with the current rule's
   * first label when inside a rule, and the byte of the current level is
   * written back.
   */
  method FinishLine(g: Grammar, root: nat, line: Bytes, quick: bool, t: Tok, ghost regular: bool)
      returns (runs: seq<Run>, state: State)
    requires GrammarPre(g, root) && TokInv(g, root, line, quick, t, regular) && |line| < 0x8000_0000
    requires t.offset >= |line|
    ensures t.info.ruleIdx == 0 ==>
      runs == Emitted(g.syntaxes[t.info.syntax], None, t.offset, t.lastEmission, line, t.runs, quick)
    ensures t.info.ruleIdx > 0 ==>
      var rule := RulesOf(g, t.info.syntax)[t.info.ruleIdx - 1];
      |rule.labels| > 0 &&
      runs == Emitted(g.syntaxes[t.info.syntax], Some(rule.labels[0]), t.offset, t.lastEmission, line, t.runs, quick)
    ensures Coalesced(runs) && Positive(runs) && (quick ==> runs == [])
    ensures ValidState(g, root, state) && Levels(state) == Levels(t.state)
    ensures regular && !quick && t.offset < 0x8000_0000 ==> Total(runs) == t.offset
  {
    var syn := t.info.syntax;
    RulesValid(g, syn);
    var kind := if t.info.ruleIdx > 0 then Some(RulesOf(g, syn)[t.info.ruleIdx - 1].labels[0]) else None;
    runs := Emit(g, syn, kind, t.offset, t.lastEmission, line, t.runs, quick);
    WriteBack(g, root, t.state);
    state := SetLevelSigned(t.state, |t.info.path|, t.info.ruleIdx);
  }
}
