/**
 * The Lua-style pattern matcher `match_pattern_internal` of
 * src/api/tokenizer.c.
 *
 * It scans the pattern and the text once, left to right, anchored at the
 * starting offset. It remembers one greedy retry point and records captures
 * as flat segment lengths, each measured from the end of the previous one.
 */
module Matcher {
  import opened Bytes
  import Utf8

  const INT_MAX: int := 0x7FFF_FFFF

  const CARET: byte := '^' as byte
  const DOLLAR: byte := '$' as byte
  const DOT: byte := '.' as byte
  const PERCENT: byte := '%' as byte
  const LPAREN: byte := '(' as byte
  const RPAREN: byte := ')' as byte
  const LBRACKET: byte := '[' as byte
  const RBRACKET: byte := ']' as byte
  const MINUS: byte := '-' as byte
  const STAR: byte := '*' as byte
  const PLUS: byte := '+' as byte
  const QUESTION: byte := '?' as byte

  /** The lower-case letters that name a `%` class. */
  const CLASS_LETTERS: set<byte> :=
    {'a' as byte, 'w' as byte, 'l' as byte, 'u' as byte, 'd' as byte, 'g' as byte,
     'c' as byte, 'p' as byte, 's' as byte, 'x' as byte, 'z' as byte}

  /**
   * The part of the scan that the pattern dispatch updates: the pattern
   * position, the set nesting counter and inversion flag, whether the
   * current class matched, and where the current class began.
   */
  datatype Scan = Scan(sp: int, open: int, inv: bool, matches: bool, scc: int)

  /** How one pass through the pattern dispatch ends. */
  datatype Step =
    | Fail              // the matcher returns 0
    | Again(s: Scan)    // the loop continues without testing a byte
    | Close(s: Scan)    // `)` outside a set: a capture ends here
    | Frontier(s: Scan) // `%f`: the frontier is remembered and the loop continues
    | Tested(s: Scan)   // a class was tested against the current byte

  /**
   * A `%` class letter `kind` against byte `c`. The test is chosen by the
   * lower-case form of `kind`; any other byte matches itself; an upper-case
   * `kind` inverts the outcome, so `%Q` matches every byte but `Q`. `%f` is
   * handled by the caller.
   */
  function PercentMatches(kind: byte, c: byte): (m: bool)
    ensures ToLower(kind) == 'a' as byte ==> (m <==> (IsAlpha(c) == (kind == 'a' as byte)))
    ensures ToLower(kind) == 'w' as byte ==> (m <==> (IsAlnum(c) == (kind == 'w' as byte)))
    ensures ToLower(kind) == 'l' as byte ==> (m <==> (IsLower(c) == (kind == 'l' as byte)))
    ensures ToLower(kind) == 'u' as byte ==> (m <==> (IsUpper(c) == (kind == 'u' as byte)))
    ensures ToLower(kind) == 'd' as byte ==> (m <==> (IsDigit(c) == (kind == 'd' as byte)))
    ensures ToLower(kind) == 'g' as byte ==> (m <==> (IsGraph(c) == (kind == 'g' as byte)))
    ensures ToLower(kind) == 'c' as byte ==> (m <==> (IsCntrl(c) == (kind == 'c' as byte)))
    ensures ToLower(kind) == 'p' as byte ==> (m <==> (IsPunct(c) == (kind == 'p' as byte)))
    ensures ToLower(kind) == 's' as byte ==> (m <==> (IsSpace(c) == (kind == 's' as byte)))
    ensures ToLower(kind) == 'x' as byte ==> (m <==> (IsXDigit(c) == (kind == 'x' as byte)))
    ensures ToLower(kind) == 'z' as byte ==> (m <==> ((c == 0) == (kind == 'z' as byte)))
    ensures ToLower(kind) !in CLASS_LETTERS ==> (m <==> ((c == kind) != IsUpper(kind)))
  {
    var lower := ToLower(kind);
    var base :=
      if lower == 'a' as byte then IsAlpha(c)
      else if lower == 'w' as byte then IsAlnum(c)
      else if lower == 'l' as byte then IsLower(c)
      else if lower == 'u' as byte then IsUpper(c)
      else if lower == 'd' as byte then IsDigit(c)
      else if lower == 'g' as byte then IsGraph(c)
      else if lower == 'c' as byte then IsCntrl(c)
      else if lower == 'p' as byte then IsPunct(c)
      else if lower == 's' as byte then IsSpace(c)
      else if lower == 'x' as byte then IsXDigit(c)
      else if lower == 'z' as byte then c == 0
      else kind == c;
    if lower != kind then !base else base
  }

  /**
   * `[` as the code handles it: only the outermost `[` of a set moves past
   * itself; a nested one only raises the counter. A `^` that follows makes
   * the set inverted.
   */
  function OpenBracket(p: Bytes, s: Scan): (r: Scan)
    ensures s.open == 0 ==> r.sp > s.sp && r.open == 1 && r.scc == s.sp
    ensures s.open != 0 && At(p, s.sp) == LBRACKET ==> r == s.(open := s.open + 1)
  {
    var s1 := if s.open == 0 then s.(open := 1, scc := s.sp, sp := s.sp + 1) else s.(open := s.open + 1);
    if At(p, s1.sp) == CARET then s1.(inv := true, sp := s1.sp + 1) else s1
  }

  /**
   * The dispatch on the current pattern byte, from the set skip up to the
   * test of the text byte at `st`. With `nestedLiteral` a `[` inside an
   * open set is an ordinary byte, as `(` and `)` inside a set are; without
   * it the `[` is handled as written.
   */
  function Dispatch(p: Bytes, t: Bytes, st: int, s: Scan, nestedLiteral: bool): (r: Step)
    requires 0 <= s.sp < |p| && 0 <= s.scc <= |p|
    ensures !r.Fail? ==> 0 <= r.s.sp <= |p| && 0 <= r.s.scc <= |p|
    ensures nestedLiteral && !r.Fail? ==>
      r.s.sp > s.sp || (s.open < 0 && r.s.open == s.open + 1 && r.s.sp == s.sp)
  {
    if s.open != 0 && s.matches && (At(p, s.sp) != RBRACKET || At(p, s.sp - 1) == PERCENT) then
      Again(s.(sp := s.sp + 1))
    else
      var s := if At(p, s.sp) != RBRACKET && s.open == 0 then s.(scc := s.sp) else s;
      var c := p[s.sp];
      if c == 0 then Fail
      else if c == DOT then Tested(s.(matches := true, sp := s.sp + 1))
      else if c == LPAREN && s.open <= 0 then Again(s.(sp := s.sp + 1))
      else if c == RPAREN && s.open <= 0 then Close(s.(sp := s.sp + 1, scc := s.sp + 1))
      else if c == LBRACKET && !(nestedLiteral && s.open > 0) then Again(OpenBracket(p, s))
      else if c == RBRACKET then Tested(s.(open := s.open - 1, sp := s.sp + 1))
      else if c == PERCENT then
        var kind := At(p, s.sp + 1);
        if kind == 0 then Fail
        else if ToLower(kind) == 'f' as byte then Frontier(s.(sp := s.sp + 2))
        else Tested(s.(matches := PercentMatches(kind, At(t, st)), sp := s.sp + 2))
      else Tested(s.(matches := c == At(t, st), sp := s.sp + 1))
  }

  /**
   * `k` passes of the dispatch that each end in `Again`, as the loop runs
   * them at a fixed text position; `None` once a pass ends otherwise.
   */
  ghost function RepeatAgain(p: Bytes, t: Bytes, st: int, s: Scan, k: nat, nestedLiteral: bool): Option<Scan>
    decreases k
  {
    if k == 0 then Some(s)
    else if !(0 <= s.sp < |p| && 0 <= s.scc <= |p|) then None
    else match Dispatch(p, t, st, s, nestedLiteral)
      case Again(s1) => RepeatAgain(p, t, st, s1, k - 1, nestedLiteral)
      case _ => None
  }

  /** The two dispatches differ only on a `[` inside an open set. */
  lemma NestedLiteralOnlyChangesBracket(p: Bytes, t: Bytes, st: int, s: Scan)
    requires 0 <= s.sp < |p| && 0 <= s.scc <= |p|
    requires Dispatch(p, t, st, s, false) != Dispatch(p, t, st, s, true)
    ensures p[s.sp] == LBRACKET && s.open > 0 && !s.matches
    ensures Dispatch(p, t, st, s, false) == Again(s.(open := s.open + 1))
  {
  }

  /**
   * As written, a `[` met inside an open set before any member matched
   * never moves the scan: every later pass returns to the same `[`, so the
   * loop does not end.
   */
  lemma {:induction false} NestedBracketStalls(p: Bytes, t: Bytes, st: int, s: Scan, k: nat)
    requires 0 <= s.sp < |p| && 0 <= s.scc <= |p|
    requires p[s.sp] == LBRACKET && s.open > 0 && !s.matches
    ensures RepeatAgain(p, t, st, s, k, false) == Some(s.(open := s.open + k))
    decreases k
  {
    if k > 0 {
      assert Dispatch(p, t, st, s, false) == Again(s.(open := s.open + 1));
      NestedBracketStalls(p, t, st, s.(open := s.open + 1), k - 1);
    }
  }

  /** The pattern `[[` reaches that state on its first pass, whatever the text. */
  lemma DoubleBracketNeverEnds(t: Bytes, st: int, k: nat)
    ensures RepeatAgain([LBRACKET, LBRACKET], t, st, Scan(0, 0, false, false, 0), k + 1, false)
         == Some(Scan(1, k + 1, false, false, 0))
    ensures 1 < PatternEnd([LBRACKET, LBRACKET])
  {
    var p := [LBRACKET, LBRACKET];
    assert Dispatch(p, t, st, Scan(0, 0, false, false, 0), false) == Again(Scan(1, 1, false, false, 0));
    NestedBracketStalls(p, t, st, Scan(1, 1, false, false, 0), k);
  }

  /** With the correction the second `[` of `[[` is compared as a byte. */
  lemma DoubleBracketCorrected(t: Bytes, st: int)
    ensures Dispatch([LBRACKET, LBRACKET], t, st, Scan(1, 1, false, false, 0), true)
         == Tested(Scan(2, 1, false, At(t, st) == LBRACKET, 0))
  {
  }

  /** A pattern that starts with one class: a plain byte, `.` or a `%` class other than `%f`. */
  predicate SimpleItem(q: Bytes) {
    && |q| >= 1
    && !(|q| == 1 && q[0] == DOLLAR)
    && q[0] !in {0, CARET, LPAREN, RPAREN, LBRACKET, RBRACKET}
    && (q[0] == PERCENT ==> |q| >= 2 && q[1] != 0 && ToLower(q[1]) != 'f' as byte)
  }

  /** Whether the first class of a pattern accepts byte `c` (meaningful for a `SimpleItem`). */
  predicate ItemMatches(q: Bytes, c: byte) {
    if At(q, 0) == DOT then true
    else if At(q, 0) == PERCENT then PercentMatches(At(q, 1), c)
    else At(q, 0) == c
  }

  /** The first pass over a single-class pattern tests that class and nothing else. */
  lemma DispatchSimpleItem(q: Bytes, t: Bytes, pos: int)
    requires SimpleItem(q)
    ensures Dispatch(q, t, pos, Scan(0, 0, false, false, 0), false).Tested?
    ensures Dispatch(q, t, pos, Scan(0, 0, false, false, 0), false).s.open == 0
    ensures Dispatch(q, t, pos, Scan(0, 0, false, false, 0), false).s.matches == ItemMatches(q, At(t, pos))
    ensures !Dispatch(q, t, pos, Scan(0, 0, false, false, 0), false).s.inv
  {
  }

  /** Where the scan of pattern `q` stops: before a final `$`, which only anchors. */
  function PatternEnd(q: Bytes): (ep: int)
    ensures ep == |q| - 1 || ep == |q|
    ensures ep == |q| - 1 <==> At(q, |q| - 1) == DOLLAR
  {
    if At(q, |q| - 1) == DOLLAR then |q| - 1 else |q|
  }

  predicate AnchoredAtEnd(q: Bytes) { At(q, |q| - 1) == DOLLAR }

  /** `q` starts with a set `[...]` of plain bytes, closed at index `k`. */
  predicate PlainSet(q: Bytes, k: int) {
    2 <= k < |q| && q[0] == LBRACKET && q[k] == RBRACKET &&
    forall i :: 1 <= i < k ==> PlainByte(q[i])
  }

  /** Where a scan of the plain set of `q` closed at `k` can stand, at text position `pos`. */
  ghost predicate InPlainSet(q: Bytes, t: Bytes, pos: int, k: int, s: Scan)
    requires PlainSet(q, k)
  {
    s == Scan(0, 0, false, false, 0) ||
    (1 <= s.sp <= k && s.open == 1 && !s.inv && s.scc == 0 && (s.matches <==> At(t, pos) in q[1..s.sp]))
  }

  /**
   * `match_pattern_internal` with `next_match_only`: whether the first class
   * of `q` accepts the text at `pos`. The text position never moves in this
   * mode, and the first complete class decides. `fuel` bounds the passes
   * through the dispatch: a `[` nested in a set stalls the C loop for good,
   * and `complete` is false when the fuel ran out first.
   */
  method MatchesNext(q: Bytes, t: Bytes, pos: int, fuel: nat) returns (b: bool, complete: bool)
    requires NoNul(q)
    ensures b ==> pos != |t| && |q| >= 1 && complete
    ensures At(q, 0) == CARET && pos != 0 ==> !b && complete
    ensures SimpleItem(q) && fuel >= 1 ==> complete && (b <==> pos != |t| && ItemMatches(q, At(t, pos)))
    ensures forall k :: PlainSet(q, k) && fuel >= |q| ==> complete && (b <==> pos != |t| && At(t, pos) in q[1..k])
  {
    var sp := 0;
    if At(q, 0) == CARET {
      if pos != 0 {
        return false, true;
      }
      sp := 1;
    }
    var ep := PatternEnd(q);
    var s := Scan(sp, 0, false, false, sp);
    var steps: nat := fuel;
    while s.sp < ep
      invariant 0 <= s.sp <= |q| && 0 <= s.scc <= |q|
      invariant SimpleItem(q) ==> s == Scan(0, 0, false, false, 0) && steps == fuel
      invariant forall k :: PlainSet(q, k) ==> InPlainSet(q, t, pos, k, s) && k < ep && steps + s.sp >= fuel
      decreases steps
    {
      if pos == |t| {
        return false, true;
      }
      if steps == 0 {
        return false, false;
      }
      steps := steps - 1;
      var step := Dispatch(q, t, pos, s, false);
      if SimpleItem(q) {
        DispatchSimpleItem(q, t, pos);
      }
      match step {
        case Fail => return false, true;
        case Again(s1) => s := s1;
        case Close(s1) => s := s1;
        case Frontier(s1) => s := s1;
        case Tested(s1) =>
          if s1.open != 0 {
            s := s1;
          } else {
            return s1.matches != s1.inv, true;
          }
      }
    }
    return false, true;
  }

  /** The position reached after the captures recorded so far. */
  ghost predicate CapturesWithin(offset: int, lengths: seq<int>, limit: int) {
    forall k :: 0 <= k <= |lengths| ==> offset + Sum(lengths[..k]) <= limit
  }

  lemma CapturesWithinAppend(offset: int, lengths: seq<int>, x: int, limit: int)
    requires CapturesWithin(offset, lengths, limit)
    requires offset + Sum(lengths) + x <= limit
    ensures CapturesWithin(offset, lengths + [x], limit)
  {
    forall k | 0 <= k <= |lengths| + 1 ensures offset + Sum((lengths + [x])[..k]) <= limit {
      if k <= |lengths| {
        assert (lengths + [x])[..k] == lengths[..k];
      } else {
        assert (lengths + [x])[..k] == lengths + [x];
        SumAppend(lengths, x);
      }
    }
  }

  /** A byte that is neither special in a pattern nor part of a multi-byte character. */
  predicate PlainByte(c: byte) {
    0 < c < 0x80 &&
    c !in {CARET, DOLLAR, DOT, PERCENT, LPAREN, RPAREN, LBRACKET, RBRACKET, MINUS, STAR, PLUS, QUESTION}
  }

  /** A pattern made only of literal ASCII bytes. */
  predicate Plain(p: Bytes) {
    forall i :: 0 <= i < |p| ==> PlainByte(p[i])
  }

  predicate Ascii(t: Bytes) {
    forall i :: 0 <= i < |t| ==> t[i] < 0x80
  }

  predicate PrefixAt(p: Bytes, t: Bytes, offset: int)
    requires 0 <= offset
  {
    offset + |p| <= |t| && t[offset..offset + |p|] == p
  }

  /** The variables of the matching loop besides the pattern dispatch state. */
  datatype Machine = Machine(
    st: int,                      // text position
    s: Scan,
    capStart: int,                // where the current capture began
    lengths: seq<int>,            // capture entries written so far
    frontierPattern: Option<int>, // position of a pending `%f`
    frontierToken: int,           // text position when that `%f` was read
    lastGreedy: Option<int>,      // the one remembered greedy retry point
    minCount: int,
    maxCount: int,
    count: int,                   // repetitions of the current class
    finished: bool)

  /** How one iteration of the matching loop ends. */
  datatype Outcome =
    | Continue(m: Machine)
    | Break(m: Machine)
    | NoMatch
    | Exhausted // a next-class look-ahead ran out of fuel

  /** The bounds the loop keeps on its positions. */
  ghost predicate ScanInv(p: Bytes, t: Bytes, m: Machine) {
    && 0 <= m.s.sp <= |p| && 0 <= m.s.scc <= |p| && m.st <= |t|
    && (m.lastGreedy.Some? ==> m.lastGreedy.value < |t|)
    && (m.frontierPattern.Some? ==>
          m.frontierToken < |t| && 0 <= m.frontierPattern.value && m.frontierPattern.value + 2 <= |p|)
  }

  /** The loop invariant: the bounds, and captures that add up to where the current one began. */
  ghost predicate Inv(p: Bytes, t: Bytes, offset: int, m: Machine) {
    && ScanInv(p, t, m)
    && m.capStart == offset + Sum(m.lengths)
    && CapturesWithin(offset, m.lengths, |t|)
  }

  /** A literal pattern has matched its first `m.s.sp` bytes at `offset` and nothing else is pending. */
  ghost predicate LiteralProgress(p: Bytes, t: Bytes, offset: int, m: Machine) {
    && 0 <= offset && 0 <= m.s.sp <= |p|
    && m.s == Scan(m.s.sp, 0, false, false, m.s.sp) && m.st == offset + m.s.sp
    && m.count == 0 && m.minCount == 1 && m.maxCount == 1 && m.lengths == []
    && m.lastGreedy.None? && m.frontierPattern.None? && (m.finished ==> m.s.sp == |p|)
    && offset + m.s.sp <= |t| && t[offset..offset + m.s.sp] == p[..m.s.sp]
  }

  /**
   * The repetition bounds and greediness a quantifier byte sets: `-` is
   * lazy and `*`, `+`, `?` are greedy (lines 161-167).
   */
  function Quantifier(c: byte): (r: Option<(int, int, bool)>)
    ensures r.Some? <==> c in {MINUS, STAR, PLUS, QUESTION}
    ensures r.Some? ==> 0 <= r.value.0 <= 1 <= r.value.1 && (r.value.2 <==> c != MINUS)
    ensures r.Some? ==> (r.value.0 == 1 <==> c == PLUS) && (r.value.1 == 1 <==> c == QUESTION)
  {
    if c == MINUS then Some((0, INT_MAX, false))
    else if c == STAR then Some((0, INT_MAX, true))
    else if c == PLUS then Some((1, INT_MAX, true))
    else if c == QUESTION then Some((0, 1, true))
    else None
  }

  /**
   * The frontier test of `%f[set]` (lines 150-156): the byte before `st`
   * is outside the set (the start of the text counts as outside, unless the
   * set is inverted) and the byte at `st` is inside it.
   */
  /** The set of `%f[set]` at `fp` is a plain one closed at `k` of what follows `%f`. */
  predicate FrontierSet(p: Bytes, fp: int, k: int)
    requires 0 <= fp && fp + 2 <= |p|
  {
    PlainSet(p[fp + 2..], k)
  }

  method FrontierHolds(p: Bytes, t: Bytes, fp: int, st: int, fuel: nat) returns (holds: bool, complete: bool)
    requires NoNul(p) && 0 <= fp && fp + 2 <= |p|
    ensures holds ==> st != |t| && complete
    ensures st - 1 < 0 && At(p, fp + 3) == CARET ==> !holds && complete
    ensures forall k :: FrontierSet(p, fp, k) && fuel >= |p| - fp - 2 ==>
      complete &&
      (holds <==>
        && (st - 1 < 0 || !(st - 1 != |t| && At(t, st - 1) in p[fp + 2..][1..k]))
        && st != |t| && At(t, st) in p[fp + 2..][1..k])
  {
    var q := p[fp + 2..];
    assert NoNul(q) by {
      forall i | 0 <= i < |q| ensures q[i] != 0 {
        assert q[i] == p[fp + 2 + i];
      }
    }
    var invertedFrontier := At(p, fp + 3) == CARET;
    if st - 1 < 0 && invertedFrontier {
      return false, true;
    }
    var outOfSetPrev := true;
    if !(st - 1 < 0 && !invertedFrontier) {
      var before, done := MatchesNext(q, t, st - 1, fuel);
      if !done {
        return false, false;
      }
      outOfSetPrev := !before;
    }
    var inSetCurrent, done := MatchesNext(q, t, st, fuel);
    if !done {
      return false, false;
    }
    holds, complete := outOfSetPrev && inSetCurrent, true;
  }

  /** A literal byte of the pattern has just been compared; nothing else is pending. */
  ghost predicate LiteralTested(p: Bytes, t: Bytes, offset: int, m: Machine) {
    && 0 <= offset && 1 <= m.s.sp <= |p|
    && m.s.open == 0 && !m.s.inv && m.s.scc == m.s.sp - 1 && m.st == offset + m.s.sp - 1
    && m.count == 0 && m.minCount == 1 && m.maxCount == 1 && m.lengths == []
    && m.lastGreedy.None? && m.frontierPattern.None?
    && m.st < |t| && t[offset..m.st] == p[..m.s.sp - 1]
    && (m.s.matches <==> t[m.st] == p[m.s.sp - 1])
  }

  /** A literal byte has been compared and counted; nothing else is pending. */
  ghost predicate LiteralCounted(p: Bytes, t: Bytes, offset: int, m: Machine, recent: bool) {
    && 0 <= offset && 1 <= m.s.sp <= |p|
    && m.s == Scan(m.s.sp, 0, false, false, m.s.sp - 1) && m.st == offset + m.s.sp - 1
    && m.count == (if recent then 1 else 0) && m.minCount == 1 && m.maxCount == 1 && m.lengths == []
    && m.lastGreedy.None? && m.frontierPattern.None?
    && m.st < |t| && t[offset..m.st] == p[..m.s.sp - 1]
    && (recent <==> t[m.st] == p[m.s.sp - 1])
  }

  lemma LiteralExtend(p: Bytes, t: Bytes, offset: int, i: int)
    requires 0 <= offset && 0 <= i < |p| && offset + i < |t|
    requires t[offset..offset + i] == p[..i] && t[offset + i] == p[i]
    ensures t[offset..offset + i + 1] == p[..i + 1]
  {
    assert t[offset..offset + i + 1] == t[offset..offset + i] + [t[offset + i]];
    assert p[..i + 1] == p[..i] + [p[i]];
  }

  /**
   * Lines 136-160 of the loop, after a class was tested: inversion, the
   * repetition count and the frontier check.
   */
  method AfterTest(p: Bytes, t: Bytes, offset: int, m: Machine, fuel: nat) returns (o: Outcome)
    requires NoNul(p) && ScanInv(p, t, m) && m.st < |t|
    requires m.s.open == 0
    ensures o.Continue? ==> ScanInv(p, t, o.m) && o.m.lengths == m.lengths && o.m.capStart == m.capStart
    ensures !o.Break?
    ensures Plain(p) && Ascii(t) && LiteralTested(p, t, offset, m) ==>
      if m.s.matches then o.Continue? && LiteralProgress(p, t, offset, o.m) && o.m.s.sp == m.s.sp
      else o.NoMatch?
  {
    var st, s, count := m.st, m.s, m.count;
    if s.inv {
      s := s.(matches := !s.matches);
    }
    var recent := s.matches;
    if s.matches {
      count := count + 1;
      s := s.(matches := false);
    }
    if m.frontierPattern.Some? {
      var holds, done := FrontierHolds(p, t, m.frontierPattern.value, st, fuel);
      if !done {
        return Exhausted;
      }
      if !holds {
        return NoMatch;
      }
      st := m.frontierToken - 1;
    }
    o := Repetition(p, t, offset, m.(st := st, s := s, count := count, frontierPattern := None), recent, fuel);
  }

  /**
   * Lines 161-195: the quantifier after a class, the retry of a class that
   * may repeat (remembering a greedy retry point when the rest of the
   * pattern could also match here), and the reset for the next class.
   */
  method Repetition(p: Bytes, t: Bytes, offset: int, m: Machine, recent: bool, fuel: nat) returns (o: Outcome)
    requires NoNul(p) && ScanInv(p, t, m) && m.st < |t|
    ensures o.Continue? ==> ScanInv(p, t, o.m) && o.m.lengths == m.lengths && o.m.capStart == m.capStart
    ensures !o.Break?
    ensures Plain(p) && Ascii(t) && LiteralCounted(p, t, offset, m, recent) ==>
      if recent then o.Continue? && LiteralProgress(p, t, offset, o.m) && o.m.s.sp == m.s.sp
      else o.NoMatch?
  {
    var st, s, minCount, maxCount := m.st, m.s, m.minCount, m.maxCount;
    var lastGreedy := m.lastGreedy;
    var greedy := false;
    var quantifier := Quantifier(At(p, s.sp));
    ghost var literal := Plain(p) && Ascii(t) && LiteralCounted(p, t, offset, m, recent);
    if literal {
      assert s.sp == |p| || PlainByte(p[s.sp]);
      assert quantifier.None?;
    }
    if quantifier.Some? {
      minCount, maxCount, greedy := quantifier.value.0, quantifier.value.1, quantifier.value.2;
      s := s.(sp := s.sp + 1);
    }
    var ep := PatternEnd(p);
    var finished := s.sp == ep;
    if recent && m.count < maxCount {
      var matchesNext, done := MatchesNext(p[s.sp..], t, st, fuel);
      if !done {
        return Exhausted;
      }
      if greedy || !matchesNext {
        if matchesNext {
          lastGreedy := Some(st);
        }
        s := s.(sp := s.scc);
      } else {
        s := s.(sp := s.sp + 1);
        finished := s.sp == ep;
      }
      st := Utf8.NextCharacter(t, st);
      return Continue(m.(st := st, s := s, lastGreedy := lastGreedy,
                         minCount := minCount, maxCount := maxCount, finished := finished));
    }
    if m.count < minCount || m.count > maxCount {
      return NoMatch;
    }
    if m.count > 0 && recent {
      ghost var before := st;
      st := Utf8.NextCharacter(t, st);
      if literal {
        assert !IsContinuation(At(t, before + 1));
        assert st == before + 1;
        LiteralExtend(p, t, offset, s.sp - 1);
      }
    }
    return Continue(m.(st := st, s := s.(scc := s.sp, inv := false), lastGreedy := lastGreedy,
                       minCount := 1, maxCount := 1, count := 0, finished := finished));
  }

  /**
   * Lines 68-80: the text is exhausted. The match ends if the pattern was
   * finished with enough repetitions; otherwise the loop resumes at the
   * remembered greedy retry point, past the class that was repeated.
   */
  function AtTextEnd(m: Machine): (o: Outcome)
    ensures o.Break? ==> o.m == m && m.finished && m.count >= m.minCount
    ensures o.Continue? ==>
      !m.finished && m.lastGreedy.Some? && o.m == m.(st := m.lastGreedy.value, lastGreedy := None, s := m.s.(sp := m.s.sp + 1))
    ensures o.NoMatch? <==> (if m.finished then m.count < m.minCount else m.lastGreedy.None?)
  {
    if m.finished then
      if m.count >= m.minCount then Break(m) else NoMatch
    else if m.lastGreedy.Some? then
      Continue(m.(st := m.lastGreedy.value, lastGreedy := None, s := m.s.(sp := m.s.sp + 1)))
    else NoMatch
  }

  lemma LiteralDispatch(p: Bytes, t: Bytes, offset: int, m: Machine)
    requires Plain(p) && Ascii(t) && LiteralProgress(p, t, offset, m) && m.s.sp < |p| && m.st < |t|
    ensures Dispatch(p, t, m.st, m.s, false).Tested?
    ensures LiteralTested(p, t, offset, m.(s := Dispatch(p, t, m.st, m.s, false).s))
  {
    assert PlainByte(p[m.s.sp]);
  }

  /**
   * A dispatch that ends the pass without reaching the test at line 138:
   * a failure, a `continue`, a closed capture, a frontier, or a byte tested
   * inside an open set.
   */
  function ControlStep(m: Machine, step: Step): (o: Outcome)
    requires !(step.Tested? && step.s.open == 0)
    ensures step.Fail? <==> o.NoMatch?
    ensures !o.NoMatch? ==> o.Continue? && o.m.s == step.s && o.m.st == m.st
    ensures step.Close? ==> o.m.lengths == m.lengths + [m.st - m.capStart] && o.m.capStart == m.st
    ensures step.Frontier? ==> o.m.frontierPattern == Some(m.s.sp) && o.m.frontierToken == m.st
  {
    match step
    case Fail => NoMatch
    case Again(s1) => Continue(m.(s := s1))
    case Close(s1) => Continue(m.(lengths := m.lengths + [m.st - m.capStart], capStart := m.st, s := s1))
    case Frontier(s1) => Continue(m.(frontierPattern := Some(m.s.sp), frontierToken := m.st, s := s1))
    case Tested(s1) => Continue(m.(s := s1))
  }

  lemma ControlStepInv(p: Bytes, t: Bytes, offset: int, m: Machine, step: Step)
    requires Inv(p, t, offset, m) && 0 <= m.s.sp < |p| && m.st < |t|
    requires step == Dispatch(p, t, m.st, m.s, false) && !(step.Tested? && step.s.open == 0)
    ensures !ControlStep(m, step).NoMatch? ==> Inv(p, t, offset, ControlStep(m, step).m)
  {
    if step.Close? {
      CapturesWithinAppend(offset, m.lengths, m.st - m.capStart, |t|);
      SumAppend(m.lengths, m.st - m.capStart);
    }
  }

  /** Lines 81-195: one pass of the dispatch and what follows it, with text left. */
  method Advance(p: Bytes, t: Bytes, offset: int, m: Machine, fuel: nat) returns (o: Outcome)
    requires NoNul(p) && Inv(p, t, offset, m) && m.s.sp < PatternEnd(p) && m.st < |t|
    ensures o.Continue? ==> Inv(p, t, offset, o.m)
    ensures !o.Break?
    ensures Plain(p) && Ascii(t) && LiteralProgress(p, t, offset, m) ==>
      if t[m.st] == p[m.s.sp]
      then o.Continue? && LiteralProgress(p, t, offset, o.m) && o.m.s.sp == m.s.sp + 1
      else o.NoMatch?
  {
    var step := Dispatch(p, t, m.st, m.s, false);
    if Plain(p) && Ascii(t) && LiteralProgress(p, t, offset, m) {
      LiteralDispatch(p, t, offset, m);
    }
    if step.Tested? && step.s.open == 0 {
      o := AfterTest(p, t, offset, m.(s := step.s), fuel);
    } else {
      ControlStepInv(p, t, offset, m, step);
      o := ControlStep(m, step);
    }
  }

  /** One iteration of the matching loop (lines 68-195). */
  method Iterate(p: Bytes, t: Bytes, offset: int, m: Machine, fuel: nat) returns (o: Outcome)
    requires NoNul(p) && Inv(p, t, offset, m) && m.s.sp < PatternEnd(p)
    ensures o.Continue? || o.Break? ==> Inv(p, t, offset, o.m)
    ensures o.Break? ==> o.m == m && m.st == |t|
    ensures Plain(p) && Ascii(t) && LiteralProgress(p, t, offset, m) ==>
      if offset + m.s.sp < |t| && t[offset + m.s.sp] == p[m.s.sp]
      then o.Continue? && LiteralProgress(p, t, offset, o.m) && o.m.s.sp == m.s.sp + 1
      else o.NoMatch?
  {
    if m.st == |t| {
      o := AtTextEnd(m);
    } else {
      o := Advance(p, t, offset, m, fuel);
    }
  }

  lemma NotPrefixAt(p: Bytes, t: Bytes, offset: int, i: int)
    requires 0 <= offset && 0 <= i < |p|
    requires !(offset + i < |t| && t[offset + i] == p[i])
    ensures !PrefixAt(p, t, offset)
  {
  }

  /**
   * Lines 197-201: the last capture entry runs to the final text position,
   * and a pattern ending in `$` fails unless that is the end of the text.
   */
  method Finish(p: Bytes, t: Bytes, offset: int, m: Machine) returns (n: nat, lengths: seq<int>)
    requires Inv(p, t, offset, m)
    ensures n == |lengths|
    ensures n > 0 ==> CapturesWithin(offset, lengths, |t|) && offset + Sum(lengths) == m.st
    ensures AnchoredAtEnd(p) && m.st != |t| ==> n == 0
    ensures !(AnchoredAtEnd(p) && m.st != |t|) ==> n == |m.lengths| + 1 && lengths[..|m.lengths|] == m.lengths
    ensures Plain(p) && LiteralProgress(p, t, offset, m) && m.s.sp == |p| ==>
      n > 0 && PrefixAt(p, t, offset) && lengths == [|p|]
  {
    CapturesWithinAppend(offset, m.lengths, m.st - m.capStart, |t|);
    SumAppend(m.lengths, m.st - m.capStart);
    lengths := m.lengths + [m.st - m.capStart];
    if AnchoredAtEnd(p) && m.st != |t| {
      return 0, [];
    }
    assert lengths[..|m.lengths|] == m.lengths;
    n := |lengths|;
  }

  /**
   * `match_pattern_internal` with a capture buffer. Returns the number of
   * capture entries written (0 when there is no match) and the entries.
   * `fuel` bounds the number of loop iterations, and of passes in each
   * next-class look-ahead: a `[` nested inside a set never moves the C loop
   * on (lines 100-107), and `complete` is false when the fuel ran out first.
   */
  method MatchPatternInternal(p: Bytes, t: Bytes, offset: int, fuel: nat)
      returns (n: nat, lengths: seq<int>, complete: bool)
    requires NoNul(p)
    requires 0 <= offset <= |t|
    ensures n == |lengths|
    ensures !complete ==> n == 0
    ensures At(p, 0) == CARET && offset != 0 ==> n == 0 && complete
    ensures n > 0 ==> CapturesWithin(offset, lengths, |t|)
    ensures n > 0 && AnchoredAtEnd(p) ==> offset + Sum(lengths) == |t|
    ensures Plain(p) && Ascii(t) && fuel >= |p| ==>
      complete && (n > 0 <==> PrefixAt(p, t, offset)) && (n > 0 ==> lengths == [|p|])
  {
    var sp := 0;
    if At(p, 0) == CARET {
      if offset != 0 {
        return 0, [], true;
      }
      sp := 1;
    }
    var ep := PatternEnd(p);
    var m := Machine(offset, Scan(sp, 0, false, false, sp), offset, [], None, 0, None, 1, 1, 0, false);
    ghost var literal := Plain(p) && Ascii(t) && fuel >= |p|;
    var steps: nat := fuel;
    while m.s.sp < ep
      invariant Inv(p, t, offset, m)
      invariant literal ==> LiteralProgress(p, t, offset, m) && steps >= |p| - m.s.sp && ep == |p|
      decreases steps
    {
      if steps == 0 {
        return 0, [], false;
      }
      steps := steps - 1;
      var o := Iterate(p, t, offset, m, fuel);
      match o {
        case NoMatch =>
          if literal {
            NotPrefixAt(p, t, offset, m.s.sp);
          }
          return 0, [], true;
        case Continue(m1) =>
          m := m1;
        case Break(m1) =>
          m := m1;
          break;
        case Exhausted =>
          return 0, [], false;
      }
    }
    n, lengths := Finish(p, t, offset, m);
    complete := true;
  }
}
