/** The older position automaton and its `match_re` entry point.

    It differs from the position automaton of the engines in one place:
    from the synthetic state 0 its transition returns all of `first`,
    without selecting the positions that carry the symbol read. Every
    other transition selects by symbol. As a consequence the first
    symbol of a word is never checked.
 */
module Legacy {
  import opened Tree
  import opened Automaton
  import opened Engines
  import Language
  import Parser
  import Printer

  /** From 0: all of `first`, whatever c is. From any other position: its
      follow successors that carry c. */
  function LegacyTransition(g: Attrs, i: int, c: char): (r: set<int>)
    ensures i == 0 ==> r == g.first
    ensures i != 0 ==> forall j :: j in r <==> (i, j) in g.follow && j in g.pos && g.pos[j] == c
    ensures i != 0 ==> r == PositionTransition(g, i, c)
  {
    if i == 0 then g.first
    else set p | p in g.follow && p.0 == i && p.1 in g.pos && g.pos[p.1] == c :: p.1
  }

  /** Away from 0 the legacy transition is the position automaton's. */
  lemma LegacyAgreesAwayFromZero(g: Attrs, i: int, c: char)
    requires i != 0
    ensures LegacyTransition(g, i, c) == PositionTransition(g, i, c)
  {
  }

  function LegacyStep(g: Attrs, s: set<int>, c: char): (r: set<int>)
    ensures forall j :: j in r <==> exists i :: i in s && j in LegacyTransition(g, i, c)
  {
    set i, j | i in s && j in LegacyTransition(g, i, c) :: j
  }

  function LegacyDelta(g: Attrs): (set<int>, char) -> set<int> {
    (s: set<int>, c: char) => LegacyStep(g, s, c)
  }

  function LegacyAfter(g: Attrs, w: seq<char>): set<int> {
    Run({0}, LegacyDelta(g), w)
  }

  method LegacyAccepts(g: Attrs, w: seq<char>) returns (accepted: bool)
    ensures accepted <==> LegacyAfter(g, w) * g.last0 != {}
  {
    assert DeadStaysDead(LegacyDelta(g), (s: set<int>) => |s|, (s: set<int>) => s * g.last0 != {});
    accepted := Accepts({0}, LegacyDelta(g), (s: set<int>) => |s|, (s: set<int>) => s * g.last0 != {}, w);
  }

  /** Parse the pattern and run the legacy automaton. There is no special
      case for the empty pattern: the parser rejects it. */
  method MatchRe(pattern: string, word: string) returns (r: Parser.Result<bool>)
    ensures pattern == "" ==> r.Failure?
    ensures Parser.Parse(pattern).Failure? ==> r == Parser.Failure(Parser.Parse(pattern).error)
    ensures Parser.Parse(pattern).Success?
            ==> r == Parser.Success(LegacyAfter(FromNode(Parser.Parse(pattern).value), word)
                                    * FromNode(Parser.Parse(pattern).value).last0 != {})
  {
    match Parser.Parse(pattern)
    case Failure(e) =>
      r := Parser.Failure(e);
    case Success(node) =>
      var accepted := LegacyAccepts(FromNode(node), word);
      r := Parser.Success(accepted);
  }

  /** After the first symbol the legacy frontier is `first`, whichever
      symbol that was. */
  lemma LegacyAfterFirst(g: Attrs, c: char, v: seq<char>)
    ensures LegacyAfter(g, [c] + v) == Run(g.first, LegacyDelta(g), v)
  {
    RunCons({0}, LegacyDelta(g), c, v);
    assert LegacyStep(g, {0}, c) == g.first;
  }

  /** The legacy automaton cannot tell words apart that differ only in
      their first symbol. */
  lemma LegacyForgetsFirstSymbol(g: Attrs, c: char, d: char, v: seq<char>)
    ensures LegacyAfter(g, [c] + v) == LegacyAfter(g, [d] + v)
  {
    LegacyAfterFirst(g, c, v);
    LegacyAfterFirst(g, d, v);
  }

  /** From a set without 0 the legacy automaton runs exactly as the
      position automaton. */
  lemma {:induction false} LegacyRunsAsPosition(g: Attrs, s: set<int>, v: seq<char>)
    requires ZeroFree(g) && 0 !in s
    ensures Run(s, LegacyDelta(g), v) == Run(s, PositionDelta(g), v)
    ensures 0 !in Run(s, PositionDelta(g), v)
    decreases |v|
  {
    if |v| > 0 {
      var u := v[..|v| - 1];
      var c := v[|v| - 1];
      LegacyRunsAsPosition(g, s, u);
      var t := Run(s, PositionDelta(g), u);
      forall j ensures j in LegacyStep(g, t, c) <==> j in PositionStep(g, t, c) {
        if j in LegacyStep(g, t, c) {
          var i :| i in t && j in LegacyTransition(g, i, c);
          LegacyAgreesAwayFromZero(g, i, c);
        }
        if j in PositionStep(g, t, c) {
          var i :| i in t && j in PositionTransition(g, i, c);
          LegacyAgreesAwayFromZero(g, i, c);
        }
      }
    }
  }

  /** The position automaton's frontier after d followed by v: run v from
      the `first` positions that carry d. */
  lemma PositionAfterCons(g: Attrs, d: char, v: seq<char>)
    ensures PositionAfter(g, [d] + v) == Run(Select(g, g.first, d), PositionDelta(g), v)
  {
    RunCons({0}, PositionDelta(g), d, v);
    assert PositionStep(g, {0}, d) == Select(g, g.first, d);
  }

  /** A word that reaches `last0` from all of `first` reaches it from the
      `first` positions carrying some single symbol d. */
  lemma SomeFirstSymbolSuffices(g: Attrs, v: seq<char>) returns (d: char)
    requires WellFormed(g)
    requires Run(g.first, PositionDelta(g), v) * g.last0 != {}
    ensures PositionAfter(g, [d] + v) * g.last0 != {}
  {
    var j := Pick(Run(g.first, PositionDelta(g), v) * g.last0);
    PositionRunSplit(g, g.first, v, j);
    var i :| i in g.first && j in Run({i}, PositionDelta(g), v);
    d := g.pos[i];
    PositionAfterCons(g, d, v);
    PositionRunMonotone(g, {i}, Select(g, g.first, d), v);
    assert j in PositionAfter(g, [d] + v) * g.last0;
  }

  /** The legacy automaton accepts c followed by v exactly when the
      position automaton accepts d followed by v for SOME symbol d. */
  lemma LegacyAcceptsAnyFirstSymbol(g: Attrs, c: char, v: seq<char>)
    requires ZeroFree(g)
    ensures LegacyAfter(g, [c] + v) * g.last0 != {}
        <==> exists d :: PositionAfter(g, [d] + v) * g.last0 != {}
  {
    LegacyAfterFirst(g, c, v);
    LegacyRunsAsPosition(g, g.first, v);
    if Run(g.first, PositionDelta(g), v) * g.last0 != {} {
      var d := SomeFirstSymbolSuffices(g, v);
    }
    if exists d :: PositionAfter(g, [d] + v) * g.last0 != {} {
      var d :| PositionAfter(g, [d] + v) * g.last0 != {};
      PositionAfterCons(g, d, v);
      PositionRunMonotone(g, Select(g, g.first, d), g.first, v);
    }
  }

  /** The pattern "a" parses to a single symbol at position 1. */
  lemma SingleSymbolParses()
    ensures Parser.Parse("a") == Parser.Success(Symbol('a', 1))
  {
    assert Parser.ParseConcat("a", 0, 1, 0) == Parser.Success(Parser.Parsed(Symbol('a', 1), 1, 2));
  }

  /** The legacy automaton of the pattern "a" accepts the word "b". */
  lemma LegacyAcceptsWrongSymbol()
    ensures LegacyAfter(FromNode(Symbol('a', 1)), "b") * FromNode(Symbol('a', 1)).last0 != {}
  {
    var g := FromNode(Symbol('a', 1));
    assert g.first == {1} && g.last0 == {1};
    RunCons({0}, LegacyDelta(g), 'b', []);
    assert LegacyStep(g, {0}, 'b') == {1};
    assert ['b'] + [] == "b";
  }

  /** The position automaton of the engines, which selects by symbol from
      0 as well, rejects it. */
  lemma PositionRejectsWrongSymbol()
    ensures PositionAfter(FromNode(Symbol('a', 1)), "b") == {}
  {
    var g := FromNode(Symbol('a', 1));
    PositionHomogeneous(g, "b");
    assert g.pos == map[1 := 'a'];
  }

  /** Both entry points on the pattern "a" and the word "b": the legacy one
      answers true, the engines answer false. */
  lemma MatchDisagreement()
    ensures Parser.Parse("a").Success?
    ensures LegacyAfter(FromNode(Parser.Parse("a").value), "b") * FromNode(Parser.Parse("a").value).last0 != {}
    ensures !Accepted(FromNode(Parser.Parse("a").value), "b")
    ensures !Language.Matches(Parser.Parse("a").value, "b")
  {
    SingleSymbolParses();
    LegacyAcceptsWrongSymbol();
    PositionRejectsWrongSymbol();
  }

  /** The tree of the pattern "(a*)*b": the group adds no node, so the
      two stars nest directly. */
  function StarStarB(): Node {
    Concat(Star(Star(Symbol('a', 1))), Symbol('b', 2))
  }

  /** It is the tree the printer writes as "(a*)*b", so that is how the
      pattern parses. */
  lemma StarStarBParses()
    ensures Parser.Parse("(a*)*b") == Parser.Success(StarStarB())
  {
    Printer.ParsePrinted(StarStarB());
    assert Printer.Show(StarStarB()) == "(a*)*b";
  }

  /** Its attributes: both positions can start a match, only b ends one,
      a repeats and is followed by b. */
  lemma StarStarBAttrs()
    ensures FromNode(StarStarB()) == Attrs(map[1 := 'a', 2 := 'b'], {1, 2}, {2}, {(1, 1), (1, 2)})
  {
    assert Pairs({1}, {1}) == {(1, 1)};
    assert Pairs({1}, {2}) == {(1, 2)};
  }

  /** The legacy transitions of "(a*)*b" away from 0: a loops on 1 and b
      leads from 1 to 2; nothing leaves 2. */
  lemma StarStarBTransitions(g: Attrs)
    requires g.pos == map[1 := 'a', 2 := 'b'] && g.follow == {(1, 1), (1, 2)}
    ensures LegacyTransition(g, 1, 'a') == {1} && LegacyTransition(g, 1, 'b') == {2}
    ensures LegacyTransition(g, 1, 'c') == {}
    ensures LegacyTransition(g, 2, 'a') == {} && LegacyTransition(g, 2, 'b') == {}
  {
    assert LegacyTransition(g, 1, 'a') == {1};
    assert LegacyTransition(g, 1, 'b') == {2};
  }

  /** The legacy step of "(a*)*b" on the sets the test words reach. */
  lemma StarStarBSteps(g: Attrs)
    requires g.pos == map[1 := 'a', 2 := 'b'] && g.first == {1, 2} && g.follow == {(1, 1), (1, 2)}
    ensures LegacyDelta(g)({0}, 'a') == {1, 2}
    ensures LegacyDelta(g)({1}, 'a') == {1} && LegacyDelta(g)({1, 2}, 'a') == {1}
    ensures LegacyDelta(g)({1}, 'b') == {2} && LegacyDelta(g)({1, 2}, 'b') == {2}
    ensures LegacyDelta(g)({1}, 'c') == {}
  {
    assert LegacyStep(g, {0}, 'a') == {1, 2};
    StarStarBTransitions(g);
    assert LegacyStep(g, {1}, 'a') == {1};
    assert LegacyStep(g, {1, 2}, 'a') == {1};
    assert LegacyStep(g, {1}, 'b') == {2};
    assert LegacyStep(g, {1, 2}, 'b') == {2};
    assert LegacyStep(g, {1}, 'c') == {};
  }

  /** With the transitions of "(a*)*b", an a, any run of a's and a b end
      in {2}, its last set. */
  lemma StarStarBAcceptsAsThenB(step: (set<int>, char) -> set<int>, m: seq<char>)
    requires step({0}, 'a') == {1, 2} && step({1, 2}, 'a') == {1} && step({1}, 'a') == {1}
    requires step({1, 2}, 'b') == {2} && step({1}, 'b') == {2}
    requires forall k | 0 <= k < |m| :: m[k] == 'a'
    ensures Run({0}, step, ['a'] + m + ['b']) == {2}
  {
    RunThrough({0}, step, 'a', 'a', m, 'b', {1});
  }

  /** An a, any run of a's and a c end in no position at all. */
  lemma StarStarBRejectsAsThenC(step: (set<int>, char) -> set<int>, m: seq<char>)
    requires step({0}, 'a') == {1, 2} && step({1, 2}, 'a') == {1} && step({1}, 'a') == {1}
    requires step({1}, 'c') == {}
    requires 0 < |m| && forall k | 0 <= k < |m| :: m[k] == 'a'
    ensures Run({0}, step, ['a'] + m + ['c']) == {}
  {
    RunThrough({0}, step, 'a', 'a', m, 'c', {1});
  }

  /** The test words as a first symbol, a run of a's and a last symbol. */
  lemma StarStarBWords()
    ensures "b" == ['b'] + [] && "ab" == ['a'] + "" + ['b']
    ensures "aaaaaaaab" == ['a'] + "aaaaaaa" + ['b']
    ensures "aaaaaaaaaaac" == ['a'] + "aaaaaaaaaa" + ['c']
    ensures forall k | 0 <= k < |"aaaaaaa"| :: "aaaaaaa"[k] == 'a'
    ensures forall k | 0 <= k < |"aaaaaaaaaa"| :: "aaaaaaaaaa"[k] == 'a'
  {
  }

  /** The legacy automaton with the attributes of "(a*)*b" accepts "b",
      "ab" and "aaaaaaaab" and rejects "aaaaaaaaaaac". */
  lemma StarStarBVerdicts(g: Attrs)
    requires g.pos == map[1 := 'a', 2 := 'b'] && g.first == {1, 2} && g.follow == {(1, 1), (1, 2)}
    ensures LegacyAfter(g, "b") == {1, 2}
    ensures LegacyAfter(g, "ab") == {2} && LegacyAfter(g, "aaaaaaaab") == {2}
    ensures LegacyAfter(g, "aaaaaaaaaaac") == {}
  {
    LegacyAfterFirst(g, 'b', []);
    StarStarBSteps(g);
    StarStarBWords();
    StarStarBAcceptsAsThenB(LegacyDelta(g), "");
    StarStarBAcceptsAsThenB(LegacyDelta(g), "aaaaaaa");
    StarStarBRejectsAsThenC(LegacyDelta(g), "aaaaaaaaaa");
  }

  /** The test of the legacy automaton on "(a*)*b": it accepts "b", "ab"
      and "aaaaaaaab" and rejects "aaaaaaaaaaac". On these words the
      unchecked first symbol makes no difference. */
  lemma LegacyStarStarB()
    ensures Parser.Parse("(a*)*b").Success?
    ensures var g := FromNode(Parser.Parse("(a*)*b").value);
      && LegacyAfter(g, "b") * g.last0 != {}
      && LegacyAfter(g, "ab") * g.last0 != {}
      && LegacyAfter(g, "aaaaaaaab") * g.last0 != {}
      && LegacyAfter(g, "aaaaaaaaaaac") * g.last0 == {}
  {
    StarStarBParses();
    StarStarBAttrs();
    StarStarBVerdicts(FromNode(StarStarB()));
  }
}
