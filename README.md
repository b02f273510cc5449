# lite-xl tokenizer core in Dafny

This project models the native syntax tokenizer of lite-xl (`src/api/tokenizer.c`):

- the Lua-style pattern matcher `match_pattern_internal`, and the dispatch in `match_pattern` between it and a regular-expression engine;
- the compiled syntax tables built by `f_new_syntax`, with the `strcmp`-sorted symbol table;
- the 64-bit packed state that records, level by level, which rule and subsyntax the tokenizer is inside, and its decoder `get_subsyntax_details`;
- `emit_token`, which labels a span and merges it with the previous run when the labels are equal;
- `tokenize_line`, which cuts one line into runs of (label, length) and carries the state to the next line.

Modules:

- `Bytes` (bytes.dfy): bytes, NUL-terminated strings, the ASCII `ctype` predicates, `Sum`.
- `Bits` (bits.dfy): two small conversions between `int` and bit-vectors.
- `Utf8` (utf8.dfy): `next_utf8_character`.
- `Matcher` (matcher.dfy): the pattern matcher, as a loop over the machine state of the C function.
- `Syntax` (syntax.dfy): rules, syntaxes, grammars, the `strcmp` order, and building a syntax from its description.
- `PackedState` (packed_state.dfy): the bit layout of the state, the decoder, and the effect of every state write `tokenize_line` performs.
- `Tokenizer` (tokenizer.dfy): `match_pattern`, `emit_token` and `tokenize_line`.

Unless a row below says otherwise, all cited lines are in `src/api/tokenizer.c`. C details the model spells out:

- `size_t` arithmetic wraps modulo 2^64 (`Tokenizer.Add`).
- Positions handed to `emit_token` are narrowed to `int` (`Tokenizer.Int32`).
- The shifts in the state writes mix `int` with `unsigned long long`. A negative `int` mask is sign-extended (`PackedState.Widen`).
- A signed left shift that overflows is taken to wrap as two's complement. As a result, line 299 at depth 3 clears bytes 2 to 7 (`PackedState.ClearTwo`).
- The matcher runs the code as written, including the nested `[` of lines 100-107 that does not move on (`Matcher.Dispatch` with `nestedLiteral` false). The corrected reading is proved about separately (`Matcher.DoubleBracketCorrected`).
- `Tokenizer.TokenizeLine` takes a flag `corrected`. When it is false, lines 282-362 run as written. When it is true, the rule count is taken after the parent check, and the escape skip of line 341 stays within the line. These are the corrections of the two findings on lines 290 and 341.

## Model

| member | source | states |
|---|---|---|
| Utf8.NextCharacter | src/api/tokenizer.c:44 | moves strictly forward, past continuation bytes only, to the first byte that is not a continuation byte (NUL past the end), never beyond the end of a text it started inside |
| Utf8.NextCharacterUnique | src/api/tokenizer.c:44 | the position described by NextCharacter's contract is unique, so that contract determines the result |
| Bytes.CString | src/api/tokenizer.c:386 | the string `strncpy` keeps: the longest NUL-free prefix, ending right before the first NUL |
| Bytes.CStringOfNoNul | src/api/tokenizer.c:386 | copying a NUL-free string keeps all of it |
| Bytes.ToLower | src/api/tokenizer.c:111 | ASCII `tolower`: upper-case letters move to lower case, all other bytes are unchanged |
| Matcher.PercentMatches | src/api/tokenizer.c:109-130 | a `%` class tests the byte by its lower-case letter: `a` letters, `d` digits, `l` lower case, `s` spaces, `w` letters and digits, `x` hex digits, `u` upper case, `p` punctuation, `c` control bytes, `g` printable non-space bytes, `z` NUL; an upper-case class letter inverts the test; any other byte after `%` matches only itself |
| Matcher.OpenBracket | src/api/tokenizer.c:100-107 | the outermost `[` opens a set and moves past itself; a nested `[` only raises the nesting counter |
| Matcher.Dispatch | src/api/tokenizer.c:81-135 | the dispatch keeps pattern positions in range; with a nested `[` read as a literal, every pass moves forward in the pattern or closes one set level |
| Matcher.NestedLiteralOnlyChangesBracket | src/api/tokenizer.c:100-107 | the code as written and the corrected dispatch differ only on a `[` inside an open set whose class has not matched yet |
| Matcher.NestedBracketStalls | src/api/tokenizer.c:100-107 | as written, k passes over such a `[` leave the pattern position where it was and only raise the counter by k |
| Matcher.DoubleBracketNeverEnds | src/api/tokenizer.c:100-107 | as written, the pattern `[[` reaches this stuck state and stays in it for any number of passes |
| Matcher.DoubleBracketCorrected | src/api/tokenizer.c:100-135 | with a nested `[` read as a literal, `[[` tests the text byte against `[` and moves on |
| Matcher.DispatchSimpleItem | src/api/tokenizer.c:81-135 | a single literal, `.` or `%` class is tested in one pass, and the test is exactly ItemMatches |
| Matcher.PatternEnd | src/api/tokenizer.c:63-66 | a final `$` is cut off the pattern and only a final `$` is |
| Matcher.MatchesNext | src/api/tokenizer.c:136-141 | the one-item look-ahead used by `-`: false at the end of the text and after `^` away from the start; for a single item, with one pass of fuel, true exactly when the next byte matches it; for a plain set `[...]` with fuel for its length, true exactly when the next byte is one of its members |
| Matcher.CapturesWithinAppend | src/api/tokenizer.c:185-195 | appending a capture whose end stays inside the text keeps every capture inside the text |
| Matcher.Quantifier | src/api/tokenizer.c:161-166 | only `-`, `*`, `+` and `?` are quantifiers; `+` needs one repetition, `?` allows at most one, and all of them but `-` are greedy |
| Matcher.FrontierHolds | src/api/tokenizer.c:150-156 | a frontier never holds at the end of the text, and `%f[^...]` never holds at the start; for a plain set, with fuel for it, `%f[set]` holds exactly when the previous byte is missing or outside the set and the current byte is inside it |
| Matcher.AfterTest | src/api/tokenizer.c:136-160 | the step after a class test keeps the machine invariant; for a literal pattern it moves on exactly when the byte matched |
| Matcher.Repetition | src/api/tokenizer.c:161-195 | the quantifier bookkeeping keeps the machine invariant; for a literal pattern it moves on exactly when the last test matched |
| Matcher.AtTextEnd | src/api/tokenizer.c:68-80 | at the end of the text: succeed when a finished repetition reached its minimum, else go back to the last greedy retry point, else fail |
| Matcher.ControlStep | src/api/tokenizer.c:81-100 | a pass that tested no byte fails exactly when the dispatch failed, and a `)` records the capture's length since the previous capture |
| Matcher.ControlStepInv | src/api/tokenizer.c:81-100 | those passes keep the machine invariant |
| Matcher.Advance | src/api/tokenizer.c:81-195 | one pass of the loop keeps the invariant; for a literal pattern it moves forward exactly when the text byte equals the pattern byte |
| Matcher.Iterate | src/api/tokenizer.c:68-195 | one pass of the loop, including the end-of-text branch, keeps the invariant; for a literal pattern it moves forward exactly when the next text byte equals the next pattern byte |
| Matcher.NotPrefixAt | src/api/tokenizer.c:68-195 | one mismatching byte means the literal is not a prefix at that offset |
| Matcher.Finish | src/api/tokenizer.c:197-201 | after the loop, a pattern ending in `$` that did not reach the end of the text fails; otherwise the final capture is appended, and the captures sum to the distance moved |
| Matcher.MatchPatternInternal | src/api/tokenizer.c:47-202 | the result count is the number of entries; `^` fails away from offset 0; captures stay inside the text; a match of a `$`-anchored pattern ends at the end of the text; a NUL-free plain literal matches exactly where it occurs as a prefix, with one entry, its length |
| Syntax.Compare | src/api/tokenizer.c:43 | `strcmp` reduced to its sign |
| Syntax.CompareZero | src/api/tokenizer.c:43 | the comparison returns 0 exactly for equal strings |
| Syntax.CompareAntisymmetric | src/api/tokenizer.c:43 | swapping the arguments negates the comparison |
| Syntax.CompareTransitive | src/api/tokenizer.c:43 | the order is transitive, so `qsort` and `bsearch` work with it |
| Syntax.CompareStrictTransitive | src/api/tokenizer.c:43 | strict below followed by below-or-equal is strict |
| Syntax.StatefulEnd | src/api/tokenizer.c:432 | `max_stateful_length` is one past the last rule whose pattern came as a table, and 0 when there is none |
| Syntax.MakePattern | src/api/tokenizer.c:381-404 | a pattern is a regular expression exactly when asked for, and a Lua pattern holds no NUL |
| Syntax.Slot | src/api/tokenizer.c:433-437 | table entry j gives pattern slot j exactly when it exists |
| Syntax.MakeRule | src/api/tokenizer.c:420-458 | a rule with neither `pattern` nor `regex` is the "unparseable rule" error with its index; otherwise the rule is valid, keeps the labels and subsyntax, says whether its pattern came as a table, and its patterns are: a single string as the start pattern with no end or escape, or table entries 0, 1 and 2 as start, end and escape (the escape always a Lua pattern) |
| Syntax.MakeRules | src/api/tokenizer.c:419-482 | all rules build, in order and each as MakeRule builds it, exactly when each one builds; an error is that of the first rule that does not build |
| Syntax.InsertPermutes | src/api/tokenizer.c:503 | insertion adds exactly one element |
| Syntax.InsertSorted | src/api/tokenizer.c:503 | insertion of a new key keeps the keys sorted |
| Syntax.FreshKey | src/api/tokenizer.c:503 | with distinct keys, the last symbol's key is in no permutation of the others |
| Syntax.SortSymbols | src/api/tokenizer.c:503 | the symbols in strictly increasing `strcmp` order of keys, and a permutation of the input |
| Syntax.NewSyntax | src/api/tokenizer.c:406-505 | the build fails exactly when one of the first `rule_length` (count modulo 256) rules has neither field, and the error names the first such rule; otherwise the syntax is valid, rule i is MakeRule of description i, `max_stateful_length` is one past the last rule read from a table, and its symbols are the input sorted |
| Syntax.SyntaxBuilt | src/api/tokenizer.c:406-505 | a successful rule build gives a valid syntax whose rules are the built rules, whose `max_stateful_length` comes from the table flags, and whose symbols are sorted |
| Syntax.RulesBuilt | src/api/tokenizer.c:419-482 | a successful rule build means every rule had `pattern` or `regex` |
| Syntax.RulesFailed | src/api/tokenizer.c:427 | a failed rule build means some rule had neither |
| Syntax.SortKeepsValid | src/api/tokenizer.c:496-497 | a permutation of symbols whose key and value fit their fields still fits |
| PackedState.Level | src/api/tokenizer.c:239 | a state byte is below 256 |
| PackedState.BitsSame | src/api/tokenizer.c:317 | the unsigned write to byte k stores the new value there |
| PackedState.BitsSameSigned | src/api/tokenizer.c:359 | the sign-extended write to byte k stores the new value there |
| PackedState.BitsOther | src/api/tokenizer.c:317 | the unsigned write leaves the other bytes among 0-3 unchanged |
| PackedState.BitsOtherSigned | src/api/tokenizer.c:359 | the sign-extended write leaves the other bytes among 0-3 unchanged |
| PackedState.LevelSet | src/api/tokenizer.c:317 | SetLevel sets level k to n and keeps the other three levels |
| PackedState.LevelSetSigned | src/api/tokenizer.c:359 | the same for the write of line 359 |
| PackedState.BitsClearTwo | src/api/tokenizer.c:299 | the mask of line 299 zeroes bytes d-1 and d and keeps the other bytes among 0-3 |
| PackedState.LevelClearTwo | src/api/tokenizer.c:299 | line 299 clears levels d-1 and d and keeps the others |
| PackedState.Levels | src/api/tokenizer.c:238-239 | the four bytes of the state, each below 256 |
| PackedState.LevelsSet | src/api/tokenizer.c:317 | as a sequence of levels, the write is an update at index k |
| PackedState.LevelsSetSigned | src/api/tokenizer.c:359 | the same for line 359 |
| PackedState.LevelsClearTwo | src/api/tokenizer.c:299 | as a sequence of levels, line 299 is two updates to 0 |
| PackedState.ValidClosed | src/api/tokenizer.c:240-243 | in a valid grammar every subsyntax a rule names exists |
| PackedState.Walk | src/api/tokenizer.c:238-246 | the walk descends one level per byte that names a rule with a subsyntax; it stops at the first byte that does not, or after four levels, and returns that byte |
| PackedState.WalkPath | src/api/tokenizer.c:238-246 | every level passed through names an existing syntax and rule |
| PackedState.Decode | src/api/tokenizer.c:235-248 | `get_subsyntax_details`: at most four levels, a valid path, and below depth 4 the byte where it stopped is the state byte at that depth |
| PackedState.WalkStops | src/api/tokenizer.c:240-245 | a byte that names no rule with a subsyntax ends the walk there |
| PackedState.WalkEnters | src/api/tokenizer.c:240-243 | a byte that names a rule with a subsyntax descends into it |
| PackedState.WalkDescends | src/api/tokenizer.c:240-243 | a walk that passed through a level descended at that level |
| PackedState.WalkFollows | src/api/tokenizer.c:238-246 | the walk depends only on the bytes it reads: states that agree on the levels passed through decode alike up to there |
| PackedState.ZeroState | src/api/tokenizer.c:286 | state 0 decodes to the root syntax, outside every rule, and is a reachable state |
| PackedState.EnterRule | src/api/tokenizer.c:315-317 | entering a stateful rule records it at the current depth and keeps the path |
| PackedState.EnterSubsyntax | src/api/tokenizer.c:325-328 | entering a subsyntax adds one level to the path, outside every rule of the subsyntax; at depth 3 the path reaches 4 levels |
| PackedState.LeaveRule | src/api/tokenizer.c:350-352 | leaving a rule clears the current level and keeps the path |
| PackedState.LeaveSubsyntax | src/api/tokenizer.c:299-301 | leaving a subsyntax drops the last level, outside every rule of the parent syntax |
| PackedState.RewriteLevel | src/api/tokenizer.c:359 | writing back the value a level holds changes no level |
| PackedState.WriteBack | src/api/tokenizer.c:359 | the final write-back keeps every level and keeps the state reachable |
| Tokenizer.Add | src/api/tokenizer.c:318 | `size_t` addition, which is exact when the sum fits |
| Tokenizer.Int32 | src/api/tokenizer.c:250 | the `size_t` to `int` narrowing, which is exact below 2^31 |
| Tokenizer.TotalAppend | src/api/tokenizer.c:270-273 | a new run adds its length to the total |
| Tokenizer.LookupFinds | src/api/tokenizer.c:258 | the lookup finds a symbol with the key and returns its value, or reports that no symbol has the key |
| Tokenizer.LookupAt | src/api/tokenizer.c:258 | with distinct keys, the lookup returns that symbol's value |
| Tokenizer.SortedDistinct | src/api/tokenizer.c:503 | sorted keys are distinct |
| Tokenizer.FindSymbol | src/api/tokenizer.c:258 | the binary search finds an index holding the key, or shows that no index does |
| Tokenizer.Span | src/api/tokenizer.c:256-257 | the bytes from start up to offset, and empty when offset is not past start |
| Tokenizer.Label | src/api/tokenizer.c:251-261 | a span without a rule label is "normal"; a span of 64 bytes or more keeps the rule's label |
| Tokenizer.LabelLookup | src/api/tokenizer.c:254-260 | a labelled span under 64 bytes takes the value of the symbol named by its bytes, and the rule's label when no symbol is |
| Tokenizer.Classify | src/api/tokenizer.c:251-261 | the binary search of lines 251-259 chooses the label Label specifies |
| Tokenizer.ExtendShape | src/api/tokenizer.c:262-274 | the runs end in one labelled like the span: the last run lengthened by the span when it had that label, otherwise a new run of the span's length after all the old ones |
| Tokenizer.ExtendKeeps | src/api/tokenizer.c:262-274 | extending keeps neighbouring labels distinct and lengths positive, and adds the length to the total |
| Tokenizer.EmitToken | src/api/tokenizer.c:250-278 | a non-positive span emits nothing and returns 0; a span labelled like the last run lengthens it and returns 0; any other span appends a run and returns 1; neighbouring labels stay distinct and the total grows by the span |
| Tokenizer.RegexEntries | src/api/tokenizer.c:205-220 | no match, or a match with start after end, gives 0; otherwise the count is twice the pairs, and the first min(count, 256) entries are `ovector[i] + offset + 1` |
| Tokenizer.MatchPattern | src/api/tokenizer.c:204-223 | a regex goes to the engine and gives RegexEntries of its result; a Lua pattern gives the matcher's result, with its anchoring and bounds; a literal ASCII pattern matches exactly where it is a prefix, with one entry, its length |
| Tokenizer.Entry | src/api/tokenizer.c:318 | entry j of the capture list, and 0 past the entries recorded |
| Tokenizer.RulesValid | src/api/tokenizer.c:290 | in a valid grammar every syntax has sorted symbols, fewer than 256 valid rules and at most as many stateful rules as rules |
| Tokenizer.Emit | src/api/tokenizer.c:312 | the runs become Emitted of the span: unchanged in quick mode or for an empty span, otherwise grown by exactly the span |
| Tokenizer.ParentCheck | src/api/tokenizer.c:291-304 | ParentChecked: outside a subsyntax nothing changes; inside one, either nothing changes or line 299 clears the two levels and the position is the parent syntax outside every rule; for literal patterns it leaves exactly when the parent rule's escape does not match here and its end does |
| Tokenizer.ExitSubsyntax | src/api/tokenizer.c:298-301 | leaving the subsyntax: the state is cleared at the current depth and the decoded position is the parent, outside every rule |
| Tokenizer.RuleCount | src/api/tokenizer.c:290 | the rules scanned: all of them, or only up to `max_stateful_length` in quick mode |
| Tokenizer.StaleRuleCount | src/api/tokenizer.c:290-308 | an example where line 290 takes the subsyntax's 3 rules but the loop of line 308 runs in the root syntax, which has 1 |
| Tokenizer.StaleLevels | src/api/tokenizer.c:299 | the example's state has levels [1,0,0,0], and line 299 clears it to [0,0,0,0] |
| Tokenizer.ShortRuleCount | src/api/tokenizer.c:290-337 | an example where line 290 takes the subsyntax's 1 rule, the parent's end `>` matches, and the root's second rule, the one for `>`, is never tried |
| Tokenizer.ShortPassAsWritten | src/api/tokenizer.c:289-337 | any pass as written on `>` in the example's state 1 leaves the subsyntax, counts 1 rule, skips the byte as a word with nothing emitted, and the end of the line then emits it as "normal" |
| Tokenizer.ShortPassCorrected | src/api/tokenizer.c:289-337 | the same pass with the root's count of 2 applies the root's rule for `>` and emits the byte as "gt" |
| Tokenizer.SkipWord | src/api/tokenizer.c:335-336 | skips the alphanumeric bytes and the one byte after them, moving at least one byte and staying in the line |
| Tokenizer.LabelAt | src/api/tokenizer.c:321 | the label of capture j is the rule's label j, and none past its labels |
| Tokenizer.EmitCapture | src/api/tokenizer.c:321 | emitting capture j from its start to its end extends Captured by that capture |
| Tokenizer.CaptureStep | src/api/tokenizer.c:320-324 | one capture keeps what the capture loop keeps |
| Tokenizer.EmitCaptures | src/api/tokenizer.c:320-324 | capture k is emitted with label k from the last emission moved past k entries to the last emission moved past k+1; both the last emission and the offset move past every entry; for well-formed captures the offset stays in the line and the runs cover exactly the bytes up to it |
| Tokenizer.FirstWithin | src/api/tokenizer.c:318 | a well-formed first capture keeps the offset in the line |
| Tokenizer.EnterStateful | src/api/tokenizer.c:315-318 | the state records rule i+1 at the current depth, the decoded position is inside that rule, and the offset moves by the first entry; the runs are unchanged |
| Tokenizer.EnterSub | src/api/tokenizer.c:325-329 | the state records the rule and the pass restarts in the subsyntax, unless the path has reached 4 levels |
| Tokenizer.EmitPending | src/api/tokenizer.c:311-314 | the text since the last emission, if any, is emitted as "normal" and the last emission moves to the offset |
| Tokenizer.ApplyRule | src/api/tokenizer.c:315-331 | a matched rule with an end and no subsyntax is entered; any other emits its captures, and one with a subsyntax then enters it (AppliedFrom) |
| Tokenizer.RuleMatched | src/api/tokenizer.c:310-332 | a matched rule emits the pending text, then is applied as AppliedRule says, keeping the invariant |
| Tokenizer.ScanRules | src/api/tokenizer.c:307-337 | Scanned: the first of the counted rules that matches is applied; when none does the word is skipped and nothing else changes; a count past the table stops at the first missing rule; for literal patterns no earlier rule matches and the chosen one does, with its length as the one entry |
| Tokenizer.EscapeSkipAsWritten | src/api/tokenizer.c:341 | line 341 as written: past the escape's match and one byte more |
| Tokenizer.EscapeSkip | src/api/tokenizer.c:339-341 | the corrected skip past an escape: one byte past the escape's match, but never past the end of the line |
| Tokenizer.EscapeAtLineEnd | src/api/tokenizer.c:341 | an escape matching the last byte moves the offset to length + 1 as written, and the runs then total length + 1; the corrected skip stops at length |
| Tokenizer.EndStep | src/api/tokenizer.c:345-349 | one capture keeps what the end-capture loop keeps |
| Tokenizer.EmitEnd | src/api/tokenizer.c:345-349 | the offset moves past each entry of the end match and the span from the last emission to the new offset is emitted with that entry's label, the first span covering the rule's text before the end; for well-formed captures the runs cover the bytes up to the last emission |
| Tokenizer.LeaveCurrent | src/api/tokenizer.c:350-352 | leaving the rule clears its level and keeps the path |
| Tokenizer.EscapeMatched | src/api/tokenizer.c:339-341 | after an escape match only the offset changes, by EscapeSkipAsWritten, or by EscapeSkip when corrected |
| Tokenizer.EndMatched | src/api/tokenizer.c:343-352 | the end match's captures are emitted (EmitEnd) and the rule is left |
| Tokenizer.InsideEscape | src/api/tokenizer.c:339-341 | after an escape match of the current rule, the outcome Inside states for an escape, keeping the invariant; for a literal escape its one entry is the length of the escape's text |
| Tokenizer.InsideClose | src/api/tokenizer.c:344-351 | after an end match of the current rule, the outcome Inside states for it: the captures are emitted with the rule's labels, the offset moves past them and the rule is left, keeping the invariant; for a literal end its one entry is the length of the end's text |
| Tokenizer.InsideEnd | src/api/tokenizer.c:342-355 | with the escape not matching, the end is tried: a match emits its captures and leaves the rule, otherwise the offset moves one byte, as Inside states; for a literal end it matches exactly when it occurs at the offset, with one entry, the length of its text |
| Tokenizer.InsideRule | src/api/tokenizer.c:338-356 | inside a rule (Inside): an escape match skips it as line 341 does, otherwise an end match emits its captures and leaves the rule, otherwise the offset moves one byte; for literal patterns the escape is taken exactly when it matches and the end exactly when it matches, each with one entry, the length of its text |
| Tokenizer.PassRules | src/api/tokenizer.c:306-337 | after the end check, outside any rule: the rules are scanned with the count taken before the check, or after it when corrected, as Passed states |
| Tokenizer.PassInside | src/api/tokenizer.c:338-356 | after the end check, inside a rule: InsideRule's outcome, as Passed states, literal entries included |
| Tokenizer.AfterCheck | src/api/tokenizer.c:306-356 | after the end check, the pass outside or inside a rule, as Passed states, keeping the invariant |
| Tokenizer.PassedRules | src/api/tokenizer.c:289-337 | the end check, the count and the scan together make a pass outside any rule |
| Tokenizer.PassedInside | src/api/tokenizer.c:289-356 | the end check and the step inside a rule together make a pass inside it |
| Tokenizer.ClosePass | src/api/tokenizer.c:342-351 | for one rule `<` up to `>` labelled "a", inside it on the line `>>`, any pass Passed admits takes the end at offset 0 with the single entry 1: one byte labelled "a", offset 1, the rule left |
| Tokenizer.PassedBare | src/api/tokenizer.c:289-336 | in the root syntax, outside any rule and with no rules, a pass counts 0 rules and only skips a word |
| Tokenizer.LinePass | src/api/tokenizer.c:289-356 | one pass (Passed): the parent's end check (ParentChecked), then the count taken at line 290 before the check, or after it when corrected, with the rules of the syntax now current scanned as Scanned states, or else the step inside the current rule as Inside states (for literal patterns the escape or end taken has the one entry of its text's length); the invariant is kept unless the pass went too deep or past the rule table; when corrected it never reads past the table; in the root syntax without rules it skips one word |
| Tokenizer.LineStep | src/api/tokenizer.c:289-356 | one pass with fuel left keeps the loop's invariant |
| Tokenizer.FinishLine | src/api/tokenizer.c:358-359 | the rest of the line is emitted with the current rule's first label, or as "normal" outside a rule; the write-back keeps every level and keeps the state reachable; for well-formed captures the runs total the final offset |
| Tokenizer.LineEnd | src/api/tokenizer.c:358-359 | after the loop, for well-formed captures and a line shorter than 2^31 - 1 bytes, the runs total the line's length or one more, and exactly its length when corrected |
| Tokenizer.TokenizeLine | src/api/tokenizer.c:282-362 | runs have positive lengths and no two neighbours share a label; quick mode emits none; a finished line ends in a reachable state; with well-formed captures a finished line's runs total its length or one more, and exactly its length when corrected, where no rule past a table is read; literal patterns always give well-formed captures; an empty line gives no runs; a root syntax without rules gives one "normal" run over the line |

## Left out

- PCRE2 is not modelled. `Tokenizer.MatchPattern` takes the engine as a parameter `RegexEngine`, which gives the start and end offsets of the match or no match. Compiling a regex, and its errors, are left out.
- The Lua glue is left out: reading the syntax table from the Lua stack, pushing runs into a Lua table, `luaL_setmetatable`, the `internal_syntaxes` table, and the subsyntax-by-name callback (lines 460-480). A rule's subsyntax is an index into a `Syntax.Grammar`.
- `total_lines_tokenized` (line 360) and everything else outside `src/api/tokenizer.c` are left out. `src/api/dirmonitor.c`, `src/api/api.c` and `resources/pack.c` are not part of this model.
- Locale: the `ctype` predicates are those of the C locale, on ASCII. The UTF-8 extension of `%a`, `%w`, `%l` and `%u` (lines 114-117) tests the class letter, not the text byte, against 128, and a letter never passes that test, so it has no effect. The model omits it.
- Matcher.MatchPatternInternal: takes a `fuel` bound on the passes of its loop and reports `complete == false` when the bound runs out. The C loop has no bound and, because of the finding on lines 100-107, does not always end.
- Matcher.MatchPatternInternal: the exact result is stated only for plain literal patterns on ASCII text. For other patterns it states the count, anchoring and bounds, not full Lua pattern semantics, because there is no independent reference matcher to compare with.
- Tokenizer.TokenizeLine: takes a `fuel` bound on the passes of the line loop, with status OutOfFuel when it runs out. It also stops with status TooDeep when a subsyntax would open a fifth level; C would then take byte 3 of the state as `rule_idx` in the fifth syntax (lines 238-247, 339-343) and shift by 32 bits at lines 350 and 359.
- Tokenizer.TokenizeLine: the runs are proved to cover the line only while every capture list was well formed (the ghost `regular` result). The matcher can return a negative segment, e.g. `%f[a]+b` records a frontier capture. Then the C offsets wrap, and nothing about the total is claimed.
- Tokenizer.TokenizeLine: `amount_matched` is not a separate result, because it always equals the number of runs. `last_symbol` is read off the last run.
- Tokenizer.TokenizeLine: requires the line to be shorter than 2^31 bytes, because positions are passed to `emit_token` as `int`. The claim that the runs total the line or one byte more is made for lines shorter than 2^31 - 1 bytes: on a longer one, an escape at the last byte puts the offset at 2^31, which `int` cannot hold.
- Tokenizer.TokenizeLine: the runs are characterised pass by pass (the contracts of Tokenizer.LinePass and the members it calls), and for a whole line only by the properties its row lists. There is no independent reference tokenizer to compare the whole result with.
- Tokenizer.ScanRules: when a pass counts more rules than the syntax it scans has (the finding on line 290), the model stops at the first missing rule with the pass `Overrun`, and Tokenizer.TokenizeLine stops with status `PastRules`. The C code reads past the end of the rule table there.
- Tokenizer.RuleCount: quick mode scans only the first `max_stateful_length` rules. A line can therefore end in a different state in quick mode than in full mode. An example is the rules [`"`...`"` from a table, `--.*`] on the line `--"`: full mode matches `--.*` at offset 0, but quick mode skips to the `"` and enters the first rule. The model follows the code and claims no agreement between the two modes.
- Tokenizer.TokenizeLine: requires a valid start state (`ValidState`). That is state 0 (`PackedState.ZeroState`) or a state returned by a Finished line (the `status.Finished? ==> ValidState` clause), which are the states the editor hands from line to line. `f_tokenize` accepts any integer (line 371). For other states the C code may read a level byte past a rule table (line 241), or pass the NULL end pattern of a rule without one to `match_pattern`, which dereferences it (lines 343 and 205). It also reads non-zero bytes above the current level as rule indices once a subsyntax is entered, and after four subsyntax levels it takes the last subsyntax byte read as `rule_idx`. The model does not cover these states.
- Syntax.NewSyntax: requires every rule description to carry 1 to 255 labels (`ValidSpec`). In C an empty `type` table gives `symbol_type_length` 0 and an empty `symbol_types` array, which line 358 still reads at index 0 when a line ends inside that rule. With 256 or more labels, the `unsigned char` count of line 443 wraps modulo 256, and the remaining labels are ignored. The model does not cover these descriptions.
- Syntax.ValidSpec: a `pattern` or `regex` table without entries is not modelled; the C code then leaves `patterns[0]` NULL (lines 432-437), and the first match reads it. Neither is a field that is neither a string nor a table, which also leaves `patterns[0]` NULL (lines 432-439). `Syntax.PatternField` has only the string and table cases.
- Matcher.Advance: the exact step is stated for literal patterns only (the byte test and the move by one). For sets, classes, quantifiers and backtracking it states only that the machine invariant is kept, because there is no independent reference semantics of Lua patterns to compare with.
- Matcher.Iterate: the same: the exact step is stated for literal patterns, and the invariant for all others.
- Matcher.AfterTest: the same: the exact step is stated for literal patterns, and the invariant for all others.
- Matcher.Repetition: the same: the exact step is stated for literal patterns, and the invariant for all others.
- The capture buffer holds 256 entries (line 9). The model keeps the whole list and reads entries past the stored ones as 0 (`Tokenizer.Entry`). A Lua pattern with more than 256 captures, which overflows the C buffer, is not singled out.
- Syntax.NewSyntax: requires distinct symbol keys, as Lua table keys always are. It also requires the field sizes the C copies rely on: keys under 64 bytes, labels and values under 16, tables of at most three patterns. Longer strings lose their NUL under `strncpy`, and a larger table writes past `patterns[3]`; neither case is modelled.
- Syntax.NewSyntax: a `type` field that is not a table gives a single label (lines 451-457). The case where that field is not a string, which raises a Lua error, is not modelled.
- `[a-z]` ranges are not special in this matcher: `-` inside a set is an ordinary byte, as in the code.

## Findings

| source | as written | input that shows it | evidently intended | confidence | as-written member | corrected member |
|---|---|---|---|---|---|---|
| src/api/tokenizer.c:100-107 | a `[` inside an open set whose class has not matched yet only raises the nesting counter, without moving in the pattern | pattern `[[` on any non-empty text, or `[a[` on `b`: the loop never ends | a nested `[` is an ordinary member of the set, as `(` and `)` are there, so the matcher moves on | not executed | Matcher.DoubleBracketNeverEnds | Matcher.DoubleBracketCorrected |
| src/api/tokenizer.c:341 | after an escape matches, the offset moves by `matched_lengths[0] + 1` even when the escape ended on the last byte | a rule entered by `"` with escape `\`, on the line `"\`: the offset becomes 3 on a line of 2 bytes, and the runs total 3 | the skip stops at the end of the line, so the runs cover the line exactly | not executed | Tokenizer.EscapeAtLineEnd | Tokenizer.EscapeSkip |
| src/api/tokenizer.c:290 | the rule count is taken before the parent check of lines 292-304, which can leave the subsyntax | Tokenizer.StaleGrammar in state 1 on the line `>`: the count is 3, and the loop of line 308 then reads rules 1 and 2 of a root syntax with one rule | the count is taken from the syntax the rules are scanned in; with it no pass reads past a rule table | not executed | Tokenizer.StaleRuleCount | Tokenizer.LinePass |
| src/api/tokenizer.c:290 | the same stale count can also be too small | Tokenizer.ShortGrammar in state 1 on the line `>`: the count is 1, the parent's end `>` matches, and the root's rule for `>` is never tried, so the byte gets the "normal" label where the rule's label "gt" was due | the count is that of the root syntax, 2, and the byte is labelled "gt" | not executed | Tokenizer.ShortPassAsWritten | Tokenizer.ShortPassCorrected |
