/** The matching entry point, and the proof that it decides membership in
    the language the pattern denotes.

    The position automaton's frontier after a non-empty word is exactly
    the set of positions at which a path through the attributes can end:
    a path starts in `first`, steps along `follow` and spells the word.
    Together with Glushkov's theorem this makes the verdict of every
    construction the textbook semantics of the parsed pattern.
 */
module Matching {
  import opened Tree
  import opened Automaton
  import opened Engines
  import opened Language
  import Parser
  import ParserFacts

  /** p is a path for the non-empty word w through the attributes. */
  ghost predicate Path(g: Attrs, p: seq<int>, w: seq<char>) {
    && |w| > 0
    && Spells(g.pos, p, w)
    && p[0] in g.first
    && Chained(g.follow, p)
  }

  /** The frontier after one symbol: the `first` positions carrying it. */
  lemma AfterOne(g: Attrs, c: char)
    ensures PositionAfter(g, [c]) == Select(g, g.first, c)
  {
    RunCons({0}, PositionDelta(g), c, []);
    assert [c] + [] == [c];
  }

  /** From a position other than 0 the transition follows `follow`. */
  lemma StepAwayFromZero(g: Attrs, i: int, j: int, c: char)
    requires i != 0
    ensures j in PositionTransition(g, i, c) <==> (i, j) in g.follow && j in g.pos && g.pos[j] == c
  {
  }

  /** A position in the frontier after one more symbol came from some
      position of the frontier before it. */
  lemma StepSource(g: Attrs, s: set<int>, c: char, j: int) returns (i: int)
    requires j in PositionStep(g, s, c)
    ensures i in s && j in PositionTransition(g, i, c)
  {
    i :| i in s && j in PositionTransition(g, i, c);
  }

  /** A path extended by a follow step to a position carrying c is a path
      for the word extended by c. */
  lemma PathExtend(g: Attrs, q: seq<int>, u: seq<char>, c: char, j: int)
    requires Path(g, q, u) && (q[|q| - 1], j) in g.follow && j in g.pos && g.pos[j] == c
    ensures Path(g, q + [j], u + [c])
  {
    ChainedJoin(g.follow, q, [j]);
    SpellsJoin(g.pos, q, [j], u, [c]);
    assert (q + [j])[0] == q[0];
  }

  /** Every position in the frontier after a non-empty word ends a path
      for that word. */
  lemma {:induction false} FrontierHasPath(g: Attrs, w: seq<char>, j: int) returns (p: seq<int>)
    requires ZeroFree(g) && |w| > 0 && j in PositionAfter(g, w)
    ensures Path(g, p, w) && p[|p| - 1] == j
    decreases |w|
  {
    var u := w[..|w| - 1];
    var c := w[|w| - 1];
    assert u + [c] == w;
    if |u| == 0 {
      AfterOne(g, c);
      p := [j];
    } else {
      RunSnoc({0}, PositionDelta(g), u, c);
      var i := StepSource(g, PositionAfter(g, u), c, j);
      PositionHomogeneous(g, u);
      StepAwayFromZero(g, i, j, c);
      var q := FrontierHasPath(g, u, i);
      PathExtend(g, q, u, c, j);
      p := q + [j];
    }
  }

  /** The last position of every path for a non-empty word is in the
      frontier after that word. */
  lemma {:induction false} PathInFrontier(g: Attrs, p: seq<int>, w: seq<char>)
    requires ZeroFree(g) && Path(g, p, w)
    ensures p[|p| - 1] in PositionAfter(g, w)
    decreases |w|
  {
    var u := w[..|w| - 1];
    var c := w[|w| - 1];
    var j := p[|p| - 1];
    if |u| == 0 {
      AfterOne(g, c);
      assert w == [c];
    } else {
      var q := p[..|p| - 1];
      SpellsSplit(g.pos, p, w, |u|);
      ChainedSlice(g.follow, p, 0, |q|);
      PathInFrontier(g, q, u);
      var i := q[|q| - 1];
      assert i == p[|p| - 2] && i in g.pos;
      StepAwayFromZero(g, i, j, c);
      assert (p[|p| - 2], p[|p| - 1]) in g.follow;
      RunSnoc({0}, PositionDelta(g), u, c);
      assert u + [c] == w;
    }
  }

  /** The constructions accept exactly the words of the language of the
      tree, when its positions are distinct and positive. */
  lemma AcceptedIsLanguage(n: Node, w: seq<char>)
    requires Linear(n) && Positive(n)
    ensures Accepted(FromNode(n), w) <==> Matches(n, w)
  {
    var g := FromNode(n);
    MatchesIffLocal(n, w);
    if |w| == 0 {
      assert PositionAfter(g, w) == {0};
      assert Local(n, []) && Spells(Pos(n), [], w) <==> Nullable(n);
      if Matches(n, w) {
        var p :| Local(n, p) && Spells(Pos(n), p, w);
        assert p == [];
      }
      if Accepted(g, w) {
        assert 0 in g.last0;
      }
    } else {
      if Accepted(g, w) {
        var j := Pick(PositionAfter(g, w) * g.last0);
        PositionHomogeneous(g, w);
        var p := FrontierHasPath(g, w, j);
        assert j in Last(n);
        assert Local(n, p) && Spells(Pos(n), p, w);
      }
      if Matches(n, w) {
        var p :| Local(n, p) && Spells(Pos(n), p, w);
        assert Path(g, p, w);
        PathInFrontier(g, p, w);
        assert p[|p| - 1] in PositionAfter(g, w) * g.last0;
      }
    }
  }

  /** Distinct positions are needed: in a | b with both symbols at
      position 1 the merged map keeps only b, so the constructions reject
      the word a that the tree matches. */
  lemma SharedPositionLosesWord()
    ensures Matches(Alt(Symbol('a', 1), Symbol('b', 1)), "a")
    ensures !Accepted(FromNode(Alt(Symbol('a', 1), Symbol('b', 1))), "a")
  {
    var n := Alt(Symbol('a', 1), Symbol('b', 1));
    var g := FromNode(n);
    assert g.pos == map[1 := 'b'];
    PositionHomogeneous(g, "a");
    assert PositionAfter(g, "a") == {};
  }

  /** Match a word against a pattern with the chosen construction. The
      empty pattern bypasses the parser and matches only the empty word;
      any other pattern that fails to parse reports the parse error.
      Otherwise the verdict is membership in the pattern's language,
      whichever construction was chosen. */
  method Match(pattern: string, word: string, engine: Engine) returns (r: Parser.Result<bool>)
    ensures pattern == "" ==> r == Parser.Success(word == "")
    ensures pattern != "" && Parser.Parse(pattern).Failure? ==> r == Parser.Failure(Parser.Parse(pattern).error)
    ensures pattern != "" && Parser.Parse(pattern).Success?
            ==> r == Parser.Success(Matches(Parser.Parse(pattern).value, word))
  {
    if pattern == "" {
      return Parser.Success(word == "");
    }
    match Parser.Parse(pattern)
    case Failure(e) =>
      r := Parser.Failure(e);
    case Success(node) =>
      var accepted := EngineAccepts(FromNode(node), engine, word);
      ParserFacts.ParsedPositions(pattern);
      AcceptedIsLanguage(node, word);
      r := Parser.Success(accepted);
  }
}
