/**
 * The tokenizer's state between lines: a 64-bit integer whose bytes 0 to 3
 * record, level by level, which rule the tokenizer is inside. A byte holding
 * `i + 1` means rule `i` of the syntax at that level; 0 means no rule. When
 * that rule has a subsyntax the next byte describes the subsyntax, and so on
 * (`get_subsyntax_details`, src/api/tokenizer.c:235-248).
 *
 * The writes to the state mix `int` and `size_t` operands; the functions
 * below spell out what each write does to all 64 bits, taking signed
 * overflow of a left shift to wrap as two's complement.
 */
module PackedState {
  import opened Bytes
  import opened Syntax
  import opened Bits

  type State = bv64

  /** An `int` value converted to a 64-bit unsigned one: bit 31 is copied to bits 32-63. */
  function Widen(x: bv64): bv64 {
    if x & 0x8000_0000 != 0 then x | 0xFFFF_FFFF_0000_0000 else x
  }

  function FieldBits(s: State, i: nat): bv64
    requires i < 4
  {
    match i
    case 0 => s & 0xFF
    case 1 => (s >> 8) & 0xFF
    case 2 => (s >> 16) & 0xFF
    case _ => (s >> 24) & 0xFF
  }

  /** Byte `i` of the state, `(state >> (i * 8)) & 0xFF`. */
  function Field(s: State, i: nat): bv8
    requires i < 4
  {
    FieldBits(s, i) as bv8
  }

  /** Byte `i` of the state as a number. */
  function Level(s: State, i: nat): (n: nat)
    requires i < 4
    ensures n < 256
  {
    Field(s, i) as int
  }

  /**
   * `(state & ~(0xFF << (k * 8))) | (v << (k * 8))` with a `size_t` value
   * (lines 317, 326 and, with `v` = 0, line 350). The `int` mask
   * `~(0xFF << 24)` is positive, so writing level 3 also clears bytes 4-7.
   */
  function SetBits(s: State, k: nat, v: bv64): State
    requires k < 4
  {
    match k
    case 0 => (s & 0xFFFF_FFFF_FFFF_FF00) | v
    case 1 => (s & 0xFFFF_FFFF_FFFF_00FF) | (v << 8)
    case 2 => (s & 0xFFFF_FFFF_FF00_FFFF) | (v << 16)
    case _ => (s & 0x00FF_FFFF) | (v << 24)
  }

  /** The same write with an `int` value (line 359): at level 3 a value of 128 or more sets bytes 4-7. */
  function SetBitsSigned(s: State, k: nat, v: bv64): State
    requires k < 4
  {
    match k
    case 0 => (s & 0xFFFF_FFFF_FFFF_FF00) | v
    case 1 => (s & 0xFFFF_FFFF_FFFF_00FF) | (v << 8)
    case 2 => (s & 0xFFFF_FFFF_FF00_FFFF) | (v << 16)
    case _ => (s & 0x00FF_FFFF) | Widen(v << 24)
  }

  function SetLevel(s: State, k: nat, n: nat): State
    requires k < 4 && n < 256
  {
    SetBits(s, k, n as bv8 as bv64)
  }

  function SetLevelSigned(s: State, k: nat, n: nat): State
    requires k < 4 && n < 256
  {
    SetBitsSigned(s, k, n as bv8 as bv64)
  }

  /**
   * `state & ~(0xFFFF << ((d - 1) * 8))` (line 299), leaving a subsyntax
   * entered at level `d - 1`. At `d` = 3 the `int` mask is positive, so
   * bytes 2 to 7 are all cleared.
   */
  function ClearTwo(s: State, d: nat): State
    requires 1 <= d <= 3
  {
    match d
    case 1 => s & 0xFFFF_FFFF_FFFF_0000
    case 2 => s & 0xFFFF_FFFF_FF00_00FF
    case _ => s & 0x0000_0000_0000_FFFF
  }

  lemma BitsSame(s: State, k: nat, v: bv64)
    requires k < 4 && v < 256
    ensures FieldBits(SetBits(s, k, v), k) == v
  {
    if k == 0 {} else if k == 1 {} else if k == 2 {} else {}
  }

  lemma BitsSameSigned(s: State, k: nat, v: bv64)
    requires k < 4 && v < 256
    ensures FieldBits(SetBitsSigned(s, k, v), k) == v
  {
  }

  lemma BitsOther(s: State, k: nat, v: bv64, j: nat)
    requires k < 4 && v < 256 && j < 4 && j != k
    ensures FieldBits(SetBits(s, k, v), j) == FieldBits(s, j)
  {
    if k == 0 { if j == 1 {} else if j == 2 {} else {} }
    else if k == 1 { if j == 0 {} else if j == 2 {} else {} }
    else if k == 2 { if j == 0 {} else if j == 1 {} else {} }
    else { if j == 0 {} else if j == 1 {} else {} }
  }

  lemma BitsOtherSigned(s: State, k: nat, v: bv64, j: nat)
    requires k < 4 && v < 256 && j < 4 && j != k
    ensures FieldBits(SetBitsSigned(s, k, v), j) == FieldBits(s, j)
  {
    if k == 0 { if j == 1 {} else if j == 2 {} else {} }
    else if k == 1 { if j == 0 {} else if j == 2 {} else {} }
    else if k == 2 { if j == 0 {} else if j == 1 {} else {} }
    else { if j == 0 {} else if j == 1 {} else {} }
  }

  lemma Round(n: nat)
    requires n < 256
    ensures (n as bv8 as bv64) < 256
    ensures (n as bv8 as bv64) as bv8 as int == n
  {
    ByteRound(n);
    ByteWiden(n as bv8);
  }

  /** A write sets byte `k` to `n` and leaves the other bytes 0-3 as they were. */
  lemma LevelSet(s: State, k: nat, n: nat)
    requires k < 4 && n < 256
    ensures Level(SetLevel(s, k, n), k) == n
    ensures forall j :: 0 <= j < 4 && j != k ==> Level(SetLevel(s, k, n), j) == Level(s, j)
  {
    Round(n);
    BitsSame(s, k, n as bv8 as bv64);
    forall j | 0 <= j < 4 && j != k ensures Level(SetLevel(s, k, n), j) == Level(s, j) {
      BitsOther(s, k, n as bv8 as bv64, j);
    }
  }

  lemma LevelSetSigned(s: State, k: nat, n: nat)
    requires k < 4 && n < 256
    ensures Level(SetLevelSigned(s, k, n), k) == n
    ensures forall j :: 0 <= j < 4 && j != k ==> Level(SetLevelSigned(s, k, n), j) == Level(s, j)
  {
    Round(n);
    BitsSameSigned(s, k, n as bv8 as bv64);
    forall j | 0 <= j < 4 && j != k ensures Level(SetLevelSigned(s, k, n), j) == Level(s, j) {
      BitsOtherSigned(s, k, n as bv8 as bv64, j);
    }
  }

  lemma BitsClearTwo(s: State, d: nat, j: nat)
    requires 1 <= d <= 3 && j < 4
    ensures j == d - 1 || j == d ==> FieldBits(ClearTwo(s, d), j) == 0
    ensures j != d - 1 && j != d ==> FieldBits(ClearTwo(s, d), j) == FieldBits(s, j)
  {
    if d == 1 { if j == 0 {} else if j == 1 {} else if j == 2 {} else {} }
    else if d == 2 { if j == 0 {} else if j == 1 {} else if j == 2 {} else {} }
    else { if j == 0 {} else if j == 1 {} else if j == 2 {} else {} }
  }

  /** Line 299 clears the two levels `d - 1` and `d` and no other byte among 0-3. */
  lemma LevelClearTwo(s: State, d: nat)
    requires 1 <= d <= 3
    ensures Level(ClearTwo(s, d), d - 1) == 0 && Level(ClearTwo(s, d), d) == 0
    ensures forall j :: 0 <= j < 4 && j != d - 1 && j != d ==> Level(ClearTwo(s, d), j) == Level(s, j)
  {
    BitsClearTwo(s, d, d - 1);
    BitsClearTwo(s, d, d);
    forall j | 0 <= j < 4 && j != d - 1 && j != d ensures Level(ClearTwo(s, d), j) == Level(s, j) {
      BitsClearTwo(s, d, j);
    }
  }

  /** Bytes 0-3 of the state, the only ones the decoder reads. */
  function Levels(s: State): (lv: seq<nat>)
    ensures |lv| == 4 && forall i :: 0 <= i < 4 ==> lv[i] == Level(s, i) && lv[i] < 256
  {
    [Level(s, 0), Level(s, 1), Level(s, 2), Level(s, 3)]
  }

  /** Lines 317, 326 and 350 set byte `k` and leave the other bytes 0-3 alone. */
  lemma LevelsSet(s: State, k: nat, n: nat)
    requires k < 4 && n < 256
    ensures Levels(SetLevel(s, k, n)) == Levels(s)[k := n]
  {
    LevelSet(s, k, n);
  }

  lemma UpdateSame(lv: seq<nat>, d: nat, v: nat)
    requires d < |lv| && lv[d] == v
    ensures lv[d := v] == lv
  {
  }

  lemma LevelsSetSigned(s: State, k: nat, n: nat)
    requires k < 4 && n < 256
    ensures Levels(SetLevelSigned(s, k, n)) == Levels(s)[k := n]
  {
    LevelSetSigned(s, k, n);
  }

  /** Line 299 clears bytes `d - 1` and `d` and leaves the other bytes 0-3 alone. */
  lemma LevelsClearTwo(s: State, d: nat)
    requires 1 <= d <= 3
    ensures Levels(ClearTwo(s, d)) == Levels(s)[d - 1 := 0][d := 0]
  {
    LevelClearTwo(s, d);
    var a, b := Levels(ClearTwo(s, d)), Levels(s)[d - 1 := 0][d := 0];
    assert forall i :: 0 <= i < 4 ==> a[i] == b[i];
  }

  // ---------------------------------------------------------------------
  // Decoding the state

  /** A level the decoder passed through: the syntax there and the rule whose subsyntax it entered. */
  datatype Step = Step(syntax: nat, rule: nat)

  /**
   * What `get_subsyntax_details` returns: the byte where it stopped, the
   * levels passed through (their number is `subsyntax_idx`, the last one is
   * the parent and its rule) and the syntax reached.
   */
  datatype Info = Info(ruleIdx: nat, path: seq<Step>, syntax: nat)

  /** Every subsyntax a rule names is a syntax of the grammar, which is all the decoder relies on. */
  predicate Closed(g: Grammar) {
    forall syn, j :: 0 <= syn < |g.syntaxes| && 0 <= j < |g.syntaxes[syn].rules| && g.syntaxes[syn].rules[j].subsyntax.Some? ==>
      g.syntaxes[syn].rules[j].subsyntax.value < |g.syntaxes|
  }

  lemma ValidClosed(g: Grammar)
    requires ValidGrammar(g)
    ensures Closed(g)
  {
    forall syn, j | 0 <= syn < |g.syntaxes| && 0 <= j < |g.syntaxes[syn].rules| && g.syntaxes[syn].rules[j].subsyntax.Some?
      ensures g.syntaxes[syn].rules[j].subsyntax.value < |g.syntaxes|
    {
      assert ValidSyntax(g.syntaxes[syn], |g.syntaxes|);
      assert ValidRule(g.syntaxes[syn].rules[j], |g.syntaxes|);
    }
  }

  function RulesOf(g: Grammar, syn: nat): seq<Rule>
    requires syn < |g.syntaxes|
  {
    g.syntaxes[syn].rules
  }

  /** Byte value `v` names a rule of `syn` that has a subsyntax. */
  predicate Enters(g: Grammar, syn: nat, v: nat)
    requires syn < |g.syntaxes|
  {
    0 < v <= |RulesOf(g, syn)| && RulesOf(g, syn)[v - 1].subsyntax.Some?
  }

  predicate PathValid(g: Grammar, path: seq<Step>) {
    forall j :: 0 <= j < |path| ==>
      path[j].syntax < |g.syntaxes| && path[j].rule < |RulesOf(g, path[j].syntax)|
  }

  predicate WalkPre(g: Grammar, syn: nat, lv: seq<nat>, i: nat) {
    Closed(g) && syn < |g.syntaxes| && |lv| == 4 && i <= 4
  }

  /** The levels `prefix` passed through before the walk `r`. */
  function Join(prefix: seq<Step>, r: Info): Info {
    Info(r.ruleIdx, prefix + r.path, r.syntax)
  }

  /**
   * The loop of lines 238-246 from level `i` in syntax `syn`, over the
   * bytes `lv` of the state; the path lists the levels from `i` on that the
   * walk passed through. A byte naming a rule beyond the table stops the
   * walk; in C it reads outside the rules array, which a state built by the
   * tokenizer never does.
   */
  function Walk(g: Grammar, syn: nat, lv: seq<nat>, i: nat): (r: Info)
    requires WalkPre(g, syn, lv, i)
    ensures i + |r.path| <= 4 && r.syntax < |g.syntaxes|
    ensures |r.path| == 0 ==> r.syntax == syn
    ensures |r.path| > 0 ==> r.path[0].syntax == syn
    ensures i + |r.path| < 4 ==> r.ruleIdx == lv[i + |r.path|] && !Enters(g, r.syntax, r.ruleIdx)
    ensures i + |r.path| == 4 ==> r.ruleIdx == lv[3]
    decreases 4 - i
  {
    if i == 4 then Info(lv[3], [], syn)
    else if Enters(g, syn, lv[i]) then
      Join([Step(syn, lv[i] - 1)], Walk(g, RulesOf(g, syn)[lv[i] - 1].subsyntax.value, lv, i + 1))
    else Info(lv[i], [], syn)
  }

  /** Every level a walk passes through names a rule of the syntax there. */
  lemma {:induction false} WalkPath(g: Grammar, syn: nat, lv: seq<nat>, i: nat)
    requires WalkPre(g, syn, lv, i)
    ensures PathValid(g, Walk(g, syn, lv, i).path)
    decreases 4 - i
  {
    if i < 4 && Enters(g, syn, lv[i]) {
      var sub := RulesOf(g, syn)[lv[i] - 1].subsyntax.value;
      WalkPath(g, sub, lv, i + 1);
      var rest := Walk(g, sub, lv, i + 1).path;
      assert Walk(g, syn, lv, i).path == [Step(syn, lv[i] - 1)] + rest;
    }
  }

  /** `get_subsyntax_details(root, state)` for a state with bytes `lv`. */
  function Decode(g: Grammar, root: nat, lv: seq<nat>): (r: Info)
    requires Closed(g) && root < |g.syntaxes| && |lv| == 4
    ensures |r.path| <= 4 && r.syntax < |g.syntaxes| && PathValid(g, r.path)
    ensures |r.path| < 4 ==> r.ruleIdx == lv[|r.path|]
    ensures |r.path| == 0 ==> r.syntax == root
  {
    WalkPath(g, root, lv, 0);
    Walk(g, root, lv, 0)
  }

  /** The syntax at level `k` of a walk that passed through at least `k` levels. */
  function SyntaxAt(w: Info, k: nat): nat
    requires k <= |w.path|
  {
    if k == |w.path| then w.syntax else w.path[k].syntax
  }

  /** A byte that names no rule with a subsyntax stops the walk where it is. */
  lemma WalkStops(g: Grammar, syn: nat, lv: seq<nat>, i: nat)
    requires WalkPre(g, syn, lv, i) && i < 4 && !Enters(g, syn, lv[i])
    ensures Walk(g, syn, lv, i) == Info(lv[i], [], syn)
  {
  }

  /** A byte that names a rule with a subsyntax takes the walk one level down. */
  lemma WalkEnters(g: Grammar, syn: nat, lv: seq<nat>, i: nat)
    requires WalkPre(g, syn, lv, i) && i < 4 && Enters(g, syn, lv[i])
    ensures var sub := RulesOf(g, syn)[lv[i] - 1].subsyntax.value;
      WalkPre(g, sub, lv, i + 1) && Walk(g, syn, lv, i) == Join([Step(syn, lv[i] - 1)], Walk(g, sub, lv, i + 1))
  {
  }

  /** Walking one level down adds the level to the front of the path. */
  lemma WalkDescends(g: Grammar, syn: nat, lv: seq<nat>, i: nat, w: Info)
    requires WalkPre(g, syn, lv, i) && w == Walk(g, syn, lv, i) && |w.path| > 0
    ensures i < 4 && Enters(g, syn, lv[i])
    ensures var sub := RulesOf(g, syn)[lv[i] - 1].subsyntax.value;
      WalkPre(g, sub, lv, i + 1) && w == Join([Step(syn, lv[i] - 1)], Walk(g, sub, lv, i + 1))
  {
  }

  lemma JoinNil(r: Info)
    ensures Join([], r) == r
  {
    assert [] + r.path == r.path;
  }

  lemma JoinJoin(p: seq<Step>, q: seq<Step>, r: Info)
    ensures Join(p, Join(q, r)) == Join(p + q, r)
  {
    assert p + (q + r.path) == (p + q) + r.path;
  }

  /** The first `n` levels of a walk that went one level down: that level, then `n - 1` levels below it. */
  lemma JoinPrefix(step: Step, w: Info, w': Info, n: nat)
    requires w == Join([step], w') && 0 < n <= |w.path|
    ensures w.path[..n] == [step] + w'.path[..n - 1]
    ensures SyntaxAt(w, n) == SyntaxAt(w', n - 1)
  {
  }

  /** The base case of `WalkFollows`: through no levels. */
  lemma FollowsNone(g: Grammar, syn: nat, lv: seq<nat>, lv': seq<nat>, i: nat, w: Info)
    requires WalkPre(g, syn, lv, i) && |lv'| == 4 && w == Walk(g, syn, lv, i)
    ensures WalkPre(g, SyntaxAt(w, 0), lv', i)
    ensures Walk(g, syn, lv', i) == Join(w.path[..0], Walk(g, SyntaxAt(w, 0), lv', i))
  {
    assert SyntaxAt(w, 0) == syn;
    assert w.path[..0] == [];
    JoinNil(Walk(g, syn, lv', i));
  }

  /** The step of `WalkFollows`: one level down, then `n - 1` levels on from there. */
  lemma FollowsStep(g: Grammar, syn: nat, lv: seq<nat>, lv': seq<nat>, i: nat, n: nat, w: Info, w': Info)
    requires WalkPre(g, syn, lv, i) && |lv'| == 4 && w == Walk(g, syn, lv, i)
    requires i < 4 && Enters(g, syn, lv[i]) && lv'[i] == lv[i] && 0 < n <= |w.path|
    requires var sub := RulesOf(g, syn)[lv[i] - 1].subsyntax.value;
      && WalkPre(g, sub, lv, i + 1) && w' == Walk(g, sub, lv, i + 1) && n - 1 <= |w'.path|
      && WalkPre(g, SyntaxAt(w', n - 1), lv', i + n)
      && Walk(g, sub, lv', i + 1) == Join(w'.path[..n - 1], Walk(g, SyntaxAt(w', n - 1), lv', i + n))
    ensures WalkPre(g, SyntaxAt(w, n), lv', i + n)
    ensures Walk(g, syn, lv', i) == Join(w.path[..n], Walk(g, SyntaxAt(w, n), lv', i + n))
  {
    var step := Step(syn, lv[i] - 1);
    WalkEnters(g, syn, lv, i);
    WalkEnters(g, syn, lv', i);
    JoinPrefix(step, w, w', n);
    JoinJoin([step], w'.path[..n - 1], Walk(g, SyntaxAt(w, n), lv', i + n));
  }

  /**
   * Two states whose bytes agree on the `n` levels from `i` that a walk
   * passed through are walked the same way through those levels.
   */
  lemma {:induction false} WalkFollows(g: Grammar, syn: nat, lv: seq<nat>, lv': seq<nat>, i: nat, n: nat, w: Info)
    requires WalkPre(g, syn, lv, i) && |lv'| == 4 && w == Walk(g, syn, lv, i)
    requires n <= |w.path|
    requires forall j :: i <= j < i + n ==> lv'[j] == lv[j]
    ensures WalkPre(g, SyntaxAt(w, n), lv', i + n)
    ensures Walk(g, syn, lv', i) == Join(w.path[..n], Walk(g, SyntaxAt(w, n), lv', i + n))
    decreases n
  {
    if n == 0 {
      FollowsNone(g, syn, lv, lv', i, w);
    } else {
      WalkDescends(g, syn, lv, i, w);
      var sub := RulesOf(g, syn)[lv[i] - 1].subsyntax.value;
      var w' := Walk(g, sub, lv, i + 1);
      WalkFollows(g, sub, lv, lv', i + 1, n - 1, w');
      FollowsStep(g, syn, lv, lv', i, n, w, w');
    }
  }

  /**
   * The bytes of a state the tokenizer can be in: they decode to fewer than
   * four levels, the bytes above the level reached are 0, and a nonzero byte
   * there names a rule of the syntax reached that has an end pattern.
   */
  predicate ValidLevels(g: Grammar, root: nat, lv: seq<nat>)
    requires Closed(g) && root < |g.syntaxes| && |lv| == 4
  {
    var w := Decode(g, root, lv);
    && |w.path| < 4
    && (forall j :: |w.path| < j < 4 ==> lv[j] == 0)
    && (w.ruleIdx != 0 ==> w.ruleIdx <= |RulesOf(g, w.syntax)| && RulesOf(g, w.syntax)[w.ruleIdx - 1].end.Some?)
  }

  predicate ValidState(g: Grammar, root: nat, s: State)
    requires Closed(g) && root < |g.syntaxes|
  {
    ValidLevels(g, root, Levels(s))
  }

  /** The initial state 0 is outside every rule of the root syntax. */
  lemma ZeroState(g: Grammar, root: nat)
    requires Closed(g) && root < |g.syntaxes|
    ensures Decode(g, root, Levels(0)) == Info(0, [], root)
    ensures ValidState(g, root, 0)
  {
    assert Level(0, 0) == 0 && Level(0, 1) == 0 && Level(0, 2) == 0 && Level(0, 3) == 0;
  }

  /** Line 317: entering rule `r`, which has an end pattern and no subsyntax. */
  lemma EnterRule(g: Grammar, root: nat, lv: seq<nat>, r: nat)
    requires Closed(g) && root < |g.syntaxes| && |lv| == 4 && ValidLevels(g, root, lv)
    requires var w := Decode(g, root, lv);
      w.ruleIdx == 0 && r < |RulesOf(g, w.syntax)| &&
      RulesOf(g, w.syntax)[r].subsyntax.None? && RulesOf(g, w.syntax)[r].end.Some?
    ensures var w := Decode(g, root, lv); var lv' := lv[|w.path| := r + 1];
      Decode(g, root, lv') == Info(r + 1, w.path, w.syntax) && ValidLevels(g, root, lv')
  {
    var w := Decode(g, root, lv);
    var d := |w.path|;
    var lv' := lv[d := r + 1];
    WalkFollows(g, root, lv, lv', 0, d, w);
    WalkStops(g, w.syntax, lv', d);
    assert w.path[..d] + [] == w.path;
  }

  /** Line 326: entering rule `r`, which has a subsyntax; from level 3 the walk goes too deep. */
  lemma EnterSubsyntax(g: Grammar, root: nat, lv: seq<nat>, r: nat)
    requires Closed(g) && root < |g.syntaxes| && |lv| == 4 && ValidLevels(g, root, lv)
    requires var w := Decode(g, root, lv);
      w.ruleIdx == 0 && r < |RulesOf(g, w.syntax)| && RulesOf(g, w.syntax)[r].subsyntax.Some?
    ensures var w := Decode(g, root, lv); var lv' := lv[|w.path| := r + 1];
      var sub := RulesOf(g, w.syntax)[r].subsyntax.value;
      && (|w.path| < 3 ==> Decode(g, root, lv') == Info(0, w.path + [Step(w.syntax, r)], sub) && ValidLevels(g, root, lv'))
      && (|w.path| == 3 ==> |Decode(g, root, lv').path| == 4)
  {
    var w := Decode(g, root, lv);
    var d := |w.path|;
    var lv' := lv[d := r + 1];
    var sub := RulesOf(g, w.syntax)[r].subsyntax.value;
    WalkFollows(g, root, lv, lv', 0, d, w);
    assert Enters(g, w.syntax, r + 1);
    var below := Walk(g, sub, lv', d + 1);
    assert Walk(g, w.syntax, lv', d) == Join([Step(w.syntax, r)], below);
    JoinJoin(w.path[..d], [Step(w.syntax, r)], below);
    assert w.path[..d] == w.path;
    if d < 3 {
      WalkStops(g, sub, lv', d + 1);
      assert w.path + [Step(w.syntax, r)] + [] == w.path + [Step(w.syntax, r)];
    }
  }

  /** Line 350: leaving the rule at the current level. */
  lemma LeaveRule(g: Grammar, root: nat, lv: seq<nat>)
    requires Closed(g) && root < |g.syntaxes| && |lv| == 4 && ValidLevels(g, root, lv)
    ensures var w := Decode(g, root, lv); var lv' := lv[|w.path| := 0];
      Decode(g, root, lv') == Info(0, w.path, w.syntax) && ValidLevels(g, root, lv')
  {
    var w := Decode(g, root, lv);
    var d := |w.path|;
    var lv' := lv[d := 0];
    WalkFollows(g, root, lv, lv', 0, d, w);
    WalkStops(g, w.syntax, lv', d);
    assert w.path[..d] + [] == w.path;
  }

  /** Line 299: leaving the subsyntax, back outside every rule of the parent syntax. */
  lemma LeaveSubsyntax(g: Grammar, root: nat, lv: seq<nat>)
    requires Closed(g) && root < |g.syntaxes| && |lv| == 4 && ValidLevels(g, root, lv)
    requires |Decode(g, root, lv).path| >= 1
    ensures var w := Decode(g, root, lv); var d := |w.path|; var lv' := lv[d - 1 := 0][d := 0];
      Decode(g, root, lv') == Info(0, w.path[..d - 1], w.path[d - 1].syntax) && ValidLevels(g, root, lv')
  {
    var w := Decode(g, root, lv);
    var d := |w.path|;
    var lv' := lv[d - 1 := 0][d := 0];
    WalkFollows(g, root, lv, lv', 0, d - 1, w);
    assert SyntaxAt(w, d - 1) == w.path[d - 1].syntax;
    WalkStops(g, w.path[d - 1].syntax, lv', d - 1);
    assert w.path[..d - 1] + [] == w.path[..d - 1];
  }

  /** Writing back the byte a state already holds leaves bytes 0-3 as they were. */
  lemma RewriteLevel(s: State, d: nat, v: nat)
    requires d < 4 && v == Level(s, d)
    ensures Levels(SetLevelSigned(s, d, v)) == Levels(s)
  {
    LevelsSetSigned(s, d, v);
    UpdateSame(Levels(s), d, v);
  }

  /**
   * Line 359 writes back the byte the decoder stopped at, so bytes 0-3 and
   * the decoded state do not change (bytes 4-7 may).
   */
  lemma WriteBack(g: Grammar, root: nat, s: State)
    requires Closed(g) && root < |g.syntaxes| && ValidState(g, root, s)
    ensures var w := Decode(g, root, Levels(s)); var t := SetLevelSigned(s, |w.path|, w.ruleIdx);
      Levels(t) == Levels(s) && ValidState(g, root, t)
  {
    var w := Decode(g, root, Levels(s));
    RewriteLevel(s, |w.path|, w.ruleIdx);
  }
}
