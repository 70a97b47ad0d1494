# Glushkov automata for regular expressions, modelled in Dafny

This project models the core of `automata`, a small Python library. The library
parses a regular expression over single characters, with the operators `*`, `|`,
concatenation and parentheses, into a syntax tree. From the tree it computes the
Glushkov attributes:

- `nullable`
- `first`
- `last`
- `last_0`
- `follow`
- the position map

From those attributes it builds several automata that decide whether a word
matches:

- the position automaton
- its subset construction (the deterministic position automaton)
- the McNaughton–Yamada automaton
- the follow automaton and its subset construction
- the mark-before automaton
- an older position automaton behind the `match_re` entry point

The project is split into ten modules:

- `Tree` (`tree.dfy`) holds the syntax tree, its attributes, and the numbering facts that make positions unique.
- `Parser` and `ParserFacts` (`parser.dfy`) hold the recursive-descent parser. It is written as pure functions that thread the cursor, the symbol counter and the parenthesis depth. Alongside it are the shape guarantees of every successful parse and the rejected-pattern facts.
- `Printer` (`printer.dfy`) prints a tree back to pattern text with the fewest parentheses. It proves that each grammar rule reads printed text back as the tree it came from, so the parser builds exactly the tree the text describes.
- `Completeness` (`completeness.dfy`) proves the converse of the rejected-pattern facts: every non-empty, well-formed, balanced pattern parses.
- `Automaton` (`automaton.dfy`) holds what all automata share:
  - the state reached after a word;
  - the acceptance loop, with its early exit on an empty state;
  - the breadth-first exploration of a deterministic automaton's states.
- `Language` (`language.dfy`) gives the tree its textbook meaning, as a set of words, with no reference to the attributes. It proves Glushkov's theorem: for a tree whose symbol occurrences have distinct positions, the words of the language are exactly those spelled by a sequence of positions that starts in `first`, ends in `last` and steps along `follow` (or is empty, when the tree is nullable).
- `Engines` (`engines.dfy`) holds the six constructions of the implementation module. It also proves that every construction accepts exactly the words the position automaton accepts.
- `Matching` (`matching.dfy`) holds the `automata_match` entry point. It proves that the position automaton's frontier is the set of ends of such position paths, so every construction decides membership in the language of the parsed pattern.
- `Legacy` (`legacy.dfy`) holds the older position automaton and `match_re`. It also holds the proof that this automaton never checks the first symbol of a word.

The whole project verifies with `dafny verify --resource-limit 2000000 --verification-time-limit 0 --warn-contradictory-assumptions *.dfy`. Without the flags the default 30-second time limit is too short for it.

Python's exceptions become values. A parse returns `Result`, which is `Success` or `Failure(ParseError(kind, index))`. The index is the parser's cursor at the moment the Python code raises.

## Model

| member | source | states |
|---|---|---|
| Tree.Pos | automata/tree.py:104-105 | the position map is never empty, and a symbol's map sends its index to its character |
| Tree.First | automata/tree.py:90-93 | `first` is never empty and holds only positions of the subtree |
| Tree.Last | automata/tree.py:95-98 | `last` is never empty and holds only positions of the subtree |
| Tree.Last0 | automata/tree.py:23-26 | `last_0` agrees with `last` away from 0, holds 0 when the node is nullable, and with positive indices holds 0 exactly when it is nullable |
| Tree.Follow | automata/tree.py:100-102 | both ends of every follow pair are positions of the subtree |
| Tree.NumberedPositions | automata/parser.py:32-36 | a tree whose symbols are numbered consecutively from lo has exactly the positions lo .. lo+size-1 and one map entry per symbol, so its operands never share a position |
| Tree.ExampleAttributes | tests/test_tree.py:45-61 | the attributes of a(ba*b)*: not nullable, first {1}, last_0 {1, 4}, the six follow pairs and the position map |
| Parser.ParseAtom | automata/parser.py:38-58 | a success that does not start at `(` is the single character at the cursor, numbered with the current count. The end of input or `)`, `\|`, `*` fails with "expected symbol" at the index after the cursor. Every failure is located: "expected symbol" points just past a character that cannot start an atom or past the end, and "expected ')'" points at the end of the input. Every success is a balanced, well-formed span whose symbols are numbered consecutively and which does not end in `*` |
| Parser.ParseStar | automata/parser.py:60-69 | at most one `*` is consumed. Every success satisfies the same span and numbering guarantees, and the rule fails wherever an atom cannot start |
| Parser.ParseConcat | automata/parser.py:71-79 | a success stops only at `\|`, `)` or the end of the input, and carries the span and numbering guarantees. Every failure is located as for the atom rule |
| Parser.ParseAlt | automata/parser.py:81-93 | a success ends at the end of the input or at a `)` while a parenthesis is open. Every failure is located; an "unexpected close paren" failure happens only at depth 0 and points at a `)` |
| Parser.Parse | automata/parser.py:95-101 | a successful parse consumes a non-empty, well-formed, balanced input and numbers its symbols 1..N with literal characters. A failed parse names an index that locates its kind of error |
| Printer.AtomReads | automata/parser.py:38-58 | the atom rule reads a printed symbol as that symbol numbered with the current count, and a parenthesised printed tree as the tree inside, with the cursor just past the `)` |
| Printer.StarReads | automata/parser.py:60-69 | the star rule reads the printed text of any tree back as that tree: a `*` after an atom builds one `Star` node, and without a following `*` the atom is returned as it is |
| Printer.ConcatReads | automata/parser.py:71-79 | the concatenation rule reads the printed text of any tree back as that tree when `\|`, `)` or the end of input follows: a star followed by another atom builds a right-nested `Concat` |
| Printer.AltReads | automata/parser.py:81-93 | the alternation rule reads the printed text of any tree back as that tree when the end of input, or a `)` while a parenthesis is open, follows: a `\|` builds a right-nested `Alt` |
| Printer.ParsePrinted | automata/parser.py:9-17 | printing a tree whose symbols are literal characters numbered 1..N and parsing the text gives the same tree back, so the parser builds exactly the tree of the grammar |
| ParserFacts.AtomUnclosed | automata/parser.py:44-47 | when the alternation inside `(` succeeds, the atom rule fails exactly when that alternation reaches the end of the input, and then fails with "expected ')'" at the end |
| ParserFacts.AltStrayClose | automata/parser.py:83-85 | at depth 0, a concatenation followed by `)` makes the alternation rule fail with "unexpected close paren" at the index of that `)` |
| Completeness.AtomComplete | automata/parser.py:38-58 | on a non-empty, well-formed, balanced region the atom rule succeeds within the region: on `(` it finds the matching `)` |
| Completeness.StarComplete | automata/parser.py:60-69 | on such a region followed by `\|`, `)` or the end of input, the star rule succeeds within the region |
| Completeness.ConcatComplete | automata/parser.py:71-79 | on such a region without a `\|` outside parentheses, followed by `\|`, `)` or the end of input, the concatenation rule reads the whole region |
| Completeness.AltComplete | automata/parser.py:81-93 | on such a region that ends the input, or is closed by `)` while a parenthesis is open, the alternation rule reads the whole region |
| Completeness.ParseSucceedsIffWellFormed | automata/parser.py:95-101 | a pattern parses exactly when it is non-empty, well formed and balanced |
| Parser.ParseCached | automata/parser.py:95-101 | the first call parses and caches a successful tree. Later calls return the cached tree. The input never changes |
| ParserFacts.ParsedPositions | automata/parser.py:22-36 | a parsed tree's positions are exactly 1..N, all positive, one per symbol, and the tree is linear |
| ParserFacts.MalformedFails | automata/parser.py:52-55 | these inputs always fail to parse: an empty input, a leading `)`, `\|` or `*`, a trailing `(` or `\|`, two adjacent characters that cannot follow each other, or unbalanced parentheses |
| ParserFacts.RejectedAtTheEdges | tests/test_parser.py:72-92 | "", "(", ")", "*", "\|", "*a", "\|a" and "(a\|" fail to parse |
| ParserFacts.RejectedAdjacent | tests/test_parser.py:72-92 | "()", "a\|)", "a\|*", "a\|\|b", "a**" and "a\|()" fail to parse |
| ParserFacts.RejectedUnbalancedClose | tests/test_parser.py:72-92 | "a)", "a(bc)*)*" and "(((a))))" close more parentheses than they open and fail to parse |
| ParserFacts.RejectedUnbalancedOpen | tests/test_parser.py:72-92 | "(a" and "((((a)))" open more parentheses than they close and fail to parse |
| ParserFacts.ExampleStrayClose | tests/test_parser.py:82 | "a)" fails with "unexpected close paren" at index 1 |
| ParserFacts.ExampleUnclosed | tests/test_parser.py:84 | "(a" fails with "expected ')'" at index 2 |
| ParserFacts.ExampleNested | tests/test_parser.py:8 | "((a))" parses to the single symbol a numbered 1 |
| ParserFacts.ExampleRightNestedAlt | tests/test_parser.py:16 | "b\|a\|b" parses to b \| (a \| b), numbered 1, 2, 3 |
| ParserFacts.ExampleDoubleStar | tests/test_parser.py:88 | "a**" fails with "expected symbol" at index 3 |
| Automaton.RunCons | automata/impl.py:107-113 | reading c and then v is the same as running v from the state that c leads to |
| Automaton.RunThrough | automata/impl.py:107-113 | when a state is kept by a's, reading c, a run of a's and d ends where d leads from that state |
| Automaton.Accepts | automata/impl.py:127-133 | the acceptance loop answers whether the state after the whole word is final. Its early `False` on an empty state does not change the answer, because an empty state only leads to empty, non-final states |
| Automaton.ClosedHoldsRun | automata/impl.py:82-93 | every word whose intermediate states are all non-empty ends in any set that holds the initial state and is closed under the non-empty transitions, so the exploration finds every state reached along such a word |
| Automaton.AllStates | automata/impl.py:82-93 | the breadth-first exploration returns the initial state and otherwise only non-empty states. It is closed under every transition on a pattern symbol that yields a non-empty state, and every state it returns is reached by some word over the pattern's symbols. Conversely, it holds the state after every word over those symbols whose states along the way are all non-empty |
| Engines.FromNode | automata/impl.py:38-42 | the attributes copied from a tree mention only keys of its position map, and the map is not empty |
| Engines.FollowI | automata/impl.py:49-52 | after 0 come the `first` positions. After any other i come exactly the j with (i, j) a follow pair. With well-formed attributes these are all map keys |
| Engines.FollowSet | automata/impl.py:55-56 | a position is in the follow set of s exactly when it follows some member of s. It holds every member's follow set, and with well-formed attributes only map keys |
| Engines.SelectSeesOnlyKeys | automata/impl.py:59-60 | with well-formed attributes, every position a follow set holds is a key of the position map, so the map lookup in `select` never fails |
| Engines.PositionStep | automata/impl.py:112 | the new frontier is exactly the union of the transitions of its members, and every position in it carries the character read |
| Engines.PositionHomogeneous | automata/impl.py:101-102 | after a non-empty word, every position in the frontier carries the word's last character |
| Engines.PositionRunMonotone | automata/impl.py:107-113 | starting from more positions reaches at least the same positions |
| Engines.PositionRunSplit | automata/impl.py:107-113 | every position reached from a set is reached from one of its members alone |
| Engines.PositionAccepts | automata/impl.py:107-113 | the position automaton accepts exactly when the frontier after the word meets `last_0` |
| Engines.PositionCount | automata/impl.py:104-105 | the state count is the largest position |
| Engines.DeterministicPositionAccepts | automata/impl.py:127-133 | the deterministic position automaton accepts exactly when some member of its state after the word is in `last_0` |
| Engines.DeterministicPositionStates | automata/impl.py:82-96 | the reachable subset states: {0}, then non-empty sets of positions, closed under non-empty transitions and each reached by some word. The count is their number |
| Engines.McNaughtonYamadaStep | automata/impl.py:142-143 | closing a state under `follow` and then selecting by the character gives exactly the position automaton's step from that state |
| Engines.McNaughtonYamadaStepIsPositionStep | automata/impl.py:142-143 | closing under follow and then selecting gives the same set as the union of the per-position transitions |
| Engines.McNaughtonYamadaIsPosition | automata/impl.py:136-151 | the McNaughton–Yamada state after any word is the position automaton's frontier after it |
| Engines.McNaughtonYamadaAccepts | automata/impl.py:145-151 | it accepts exactly when its state after the word meets `last_0` |
| Engines.McNaughtonYamadaStates | automata/impl.py:82-96 | the reachable McNaughton–Yamada states, with the same guarantees as the other breadth-first explorations |
| Engines.FollowStates | automata/impl.py:184-185 | the follow states of 0 and of every position, and no others. With well-formed attributes the set is closed under every follow transition, so it holds every state the follow automaton can reach |
| Engines.FollowStepIsImage | automata/impl.py:172-173 | a follow-automaton step from the image of a frontier is the image of the position automaton's step |
| Engines.FollowIsImageOfPosition | automata/impl.py:175-181 | the follow automaton's frontier after any word is the image of the position automaton's frontier |
| Engines.ImageFinal | automata/impl.py:168-169 | the image holds a final follow state exactly when the frontier meets `last_0` |
| Engines.FollowAccepts | automata/impl.py:175-181 | it accepts exactly when some follow state reached after the word is final |
| Engines.FollowCount | automata/impl.py:184-188 | merging positions with equal follow state leaves at most one state per position plus one for 0 |
| Engines.ImageSize | automata/impl.py:184-185 | a set of positions has no more follow states than members |
| Engines.DeterministicFollowAccepts | automata/impl.py:202-208 | it accepts exactly when some follow state in its state after the word is final |
| Engines.FollowStepStaysInside | automata/impl.py:197-200 | every subset state holds only follow states of positions |
| Engines.DeterministicFollowStates | automata/impl.py:191-200 | the breadth-first states of the deterministic follow automaton are sets of follow states, and each is reached by some word |
| Engines.SetFinality | automata/impl.py:213-214 | a set of positions is final exactly when it meets `last_0` |
| Engines.MarkBeforeInit | automata/impl.py:217-218 | the initial mark-before state has the follow set of {0}, which is `first`, and the finality of {0} |
| Engines.MarkBeforeStep | automata/impl.py:221-223 | the new follow set holds exactly what follows the positions of the old one that carry the character, and the new state is final exactly when one of those positions is in `last_0`. An empty follow set leads to the empty, non-final state |
| Engines.MarkBeforeTracksMcNaughtonYamada | automata/impl.py:211-223 | the mark-before state after any word is the follow set and finality of the McNaughton–Yamada state after it |
| Engines.MarkBeforeDeadStaysDead | automata/impl.py:225-231 | a state with an empty follow set leads only to states with empty follow sets that are not final, so the early exit is sound even for a final state |
| Engines.MarkBeforeAccepts | automata/impl.py:225-231 | it accepts exactly when its state after the word is final |
| Engines.MarkBeforeStates | automata/impl.py:82-96 | the breadth-first mark-before states. No state with an empty follow set is recorded besides the initial one, even when it is final |
| Engines.EnginesAgree | automata/impl.py:99-231 | all constructions accept exactly the words the position automaton accepts |
| Engines.EngineAccepts | automata/impl.py:234-241 | whichever construction is chosen, the verdict is the position automaton's |
| Language.NullableIffEmptyMatch | automata/tree.py:43-115 | the four `nullable` properties compute exactly whether the tree's language holds the empty word |
| Language.PositionWordIsLocal | automata/tree.py:37-127 | every sequence of positions a match of the tree passes through is empty only when the tree is nullable, and otherwise starts in `first`, ends in `last` and has every consecutive pair in `follow` |
| Language.LocalConcat | automata/tree.py:86-102 | joining such a sequence of the left operand with one of the right operand gives one of the concatenation, the empty cases following nullability |
| Language.LocalStar | automata/tree.py:63-75 | joining a non-empty sequence of the starred child with one of the star gives one of the star, the join step being a `last`-to-`first` pair |
| Language.AltSymmetric | automata/tree.py:113-124 | the attributes of an alternation do not depend on the order of its operands |
| Language.LocalIsPositionWord | automata/tree.py:37-127 | for a tree whose operands never share a position, every sequence that is empty for a nullable tree or starts in `first`, ends in `last` and steps along `follow` is the path of some match |
| Language.AltSide | automata/tree.py:117-124 | in an alternation with disjoint operands, a sequence that starts in the first set of one operand and follows the alternation's follow relation is entirely a sequence of that operand |
| Language.Glushkov | automata/tree.py:8-127 | for such a tree, the position paths of matches are exactly the sequences the four attributes describe |
| Language.OperandsAgree | automata/tree.py:104-105 | with disjoint operands, the merged position map extends the map of each operand |
| Language.SpelledWordMatches | automata/tree.py:8-127 | labelling a position path of a linear tree with the position map's characters gives a word the tree matches |
| Language.MatchSpelled | automata/tree.py:8-127 | every word a linear tree matches is spelled by one of its position paths |
| Language.MatchesIffLocal | automata/tree.py:8-127 | a linear tree matches w exactly when some sequence the attributes describe spells w under the position map |
| Matching.AfterOne | automata/impl.py:101-102 | after one symbol, the frontier is the `first` positions that carry it |
| Matching.FrontierHasPath | automata/impl.py:107-113 | every position in the frontier after a non-empty word ends a path that starts in `first`, steps along `follow` and spells the word |
| Matching.PathInFrontier | automata/impl.py:107-113 | conversely, the end of every such path is in the frontier |
| Matching.AcceptedIsLanguage | automata/impl.py:99-113 | for a tree with distinct positive positions, the constructions accept exactly the words of the tree's language |
| Matching.SharedPositionLosesWord | automata/tree.py:126-127 | when both operands of an alternation use the same position, the merged map keeps only the right operand's character, and the constructions reject a word the tree matches |
| Matching.Match | automata/impl.py:234-241 | the empty pattern matches only the empty word. Any other pattern that fails to parse yields its parse error. Otherwise the verdict is whether the word is in the language of the parsed pattern, whatever the engine |
| Legacy.LegacyTransition | automata/automata.py:57-60 | from 0 the legacy transition yields all of `first`, whatever the character; from any other position it is the position automaton's transition |
| Legacy.LegacyAgreesAwayFromZero | automata/automata.py:57-60 | away from 0 the legacy transition is the position automaton's |
| Legacy.LegacyAccepts | automata/automata.py:29-35 | it accepts exactly when its frontier after the word meets `last_0` |
| Legacy.MatchRe | automata/automata.py:63-66 | the empty pattern is an error. A pattern that fails to parse yields its error. Otherwise the verdict is the legacy automaton's |
| Legacy.LegacyAfterFirst | automata/automata.py:58-59 | after the first symbol the frontier is `first`, whatever that symbol was |
| Legacy.LegacyForgetsFirstSymbol | automata/automata.py:58-59 | two words that differ only in their first symbol reach the same frontier |
| Legacy.LegacyRunsAsPosition | automata/automata.py:57-60 | from a set without 0, the legacy automaton runs exactly as the position automaton |
| Legacy.LegacyAcceptsAnyFirstSymbol | automata/automata.py:57-60 | the legacy automaton accepts c·v exactly when the position automaton accepts d·v for some symbol d |
| Legacy.SingleSymbolParses | tests/test_parser.py:6 | "a" parses to the symbol a numbered 1 |
| Legacy.LegacyAcceptsWrongSymbol | automata/automata.py:58-59 | the legacy automaton of the pattern a accepts the word b |
| Legacy.PositionRejectsWrongSymbol | automata/impl.py:101-102 | the position automaton of the pattern a rejects the word b |
| Legacy.MatchDisagreement | automata/automata.py:63-66 | on the pattern "a" and the word "b" the legacy entry point answers true, while the engines answer false and "b" is not in the language of "a" |
| Legacy.StarStarBParses | tests/test_automata.py:6 | "(a*)*b" parses to (a*)* followed by b, numbered 1 and 2 |
| Legacy.LegacyStarStarB | tests/test_automata.py:5-10 | "(a*)*b" parses, and its legacy automaton accepts "b", "ab" and "aaaaaaaab" and rejects "aaaaaaaaaaac" |

## Left out

- File I/O, the `counts.py` benchmarking script and the test suite are not part of this model.
- The `method_cache` memoisation decorator is left out. It only caches pure results, so every cached member is modelled by its uncached definition.
- The exact texts of the `SyntaxError` messages are left out. An error is modelled by its kind and the cursor index at which it is raised.
- The symbol list (`symbols`) is modelled as the set of the position map's values. Duplicates and order only affect how often the breadth-first loop revisits a state, not its result.
- Calling `parse` again after a failed first call is left out. The Python parser then resumes from the cursor the failure left behind. `Parser.ParseCached` models only the successful cache and a fresh first call.
- Tree reversal, minimisation and subset determinisation of reversed automata are absent from the source files, so they are not modelled.
- `Engines.Select` and `Legacy.LegacyTransition` keep a membership guard on the position map where Python looks the position up directly and would raise `KeyError`. `Engines.SelectSeesOnlyKeys` shows the guard never fires for attributes built from a tree, and `Legacy.LegacyAgreesAwayFromZero` shows the legacy transition away from 0 is the same selection.
- `Engines.PositionCount` requires a non-empty position map, where Python's `max` would raise. Every tree has at least one position.
- The breadth-first exploration keeps a new state only when its size is non-zero, as the code does. A mark-before state that is final but has an empty follow set is therefore never counted.
- Matching.AcceptedIsLanguage: holds only for trees whose positions are distinct and positive. Every parsed tree has such positions (`ParserFacts.ParsedPositions`), and `Matching.SharedPositionLosesWord` shows that the statement fails for a hand-built tree that reuses a position.
- Legacy.MatchRe: the optional `engine` argument of `match_re` is fixed to its default, `PositionAutomata`. That is the only concrete subclass of `Automata` in `automata.py`, since the base class declares `from_node` abstract. Engine classes supplied by a caller are not modelled.
- Integer widths do not matter: positions are Python integers and are modelled as unbounded `int`.

## Findings

| source | as written | input that shows it | evidently intended | confidence | as-written member | corrected member |
|---|---|---|---|---|---|---|
| automata/automata.py:58-59 | from state 0 the transition returns all of `first` without selecting the positions that carry the symbol read, so the first symbol of a word is never checked | pattern "a", word "b": `match_re` answers true | select the `first` positions that carry the symbol, as the position automaton of the implementation module does, so that every state reached after reading c carries c | not executed | Legacy.LegacyAcceptsWrongSymbol | Engines.PositionHomogeneous |
