/** The recursive-descent parser from pattern text to a syntax tree.

    Grammar, in decreasing precedence:
      alt    ::= concat | concat "|" alt
      concat ::= star   | star concat
      star   ::= atom   | atom "*"
      atom   ::= char   | "(" alt ")"

    The parser object's mutable cursor, symbol counter and parenthesis
    depth become explicit arguments: each rule takes the input index, the
    next symbol number and the current depth, and on success returns the
    tree, the index after it and the next unused symbol number. The depth
    is restored by every successful rule, so it is never returned.
 */
module Parser {
  import opened Tree

  datatype ErrorKind =
    | ExpectedSymbol        // a reserved character or the end of input where an atom must start
    | ExpectedCloseParen    // the alternation inside "(" is not followed by ")"
    | UnexpectedCloseParen  // ")" while no parenthesis is open

  /** A syntax error and the cursor position at the moment it is raised. */
  datatype ParseError = ParseError(kind: ErrorKind, index: nat)

  datatype Result<T> = Success(value: T) | Failure(error: ParseError)

  /** What a successful rule returns: the tree, the index just after the
      text it consumed, and the next unused symbol number. */
  datatype Parsed = Parsed(node: Node, next: nat, count: nat)

  /** The four characters that are syntax rather than symbols. */
  predicate Reserved(c: char) {
    c == '(' || c == ')' || c == '|' || c == '*'
  }

  /** The characters no rule can start with. */
  predicate CannotStart(c: char) {
    c == ')' || c == '|' || c == '*'
  }

  /** The characters no rule can end with. */
  predicate CannotEnd(c: char) {
    c == '(' || c == '|'
  }

  /** Two adjacent characters that no successful parse ever consumes
      together: an opener or "|" followed by a character that cannot start
      an atom, or a star applied twice. */
  predicate BadPair(x: char, y: char) {
    (CannotEnd(x) && CannotStart(y)) || (x == '*' && y == '*')
  }

  /** Every symbol occurrence is a non-reserved character. */
  predicate Literal(n: Node) {
    match n
    case Symbol(v, _) => !Reserved(v)
    case Star(c) => Literal(c)
    case Concat(l, r) => Literal(l) && Literal(r)
    case Alt(l, r) => Literal(l) && Literal(r)
  }

  /** The text s[i..j] contains no bad pair, starts with a character that
      can start an atom and ends with one that can end an atom. */
  predicate WellFormedSpan(s: string, i: nat, j: nat)
    requires i < j <= |s|
  {
    && !CannotStart(s[i])
    && !CannotEnd(s[j - 1])
    && forall k | i <= k < j - 1 :: !BadPair(s[k], s[k + 1])
  }

  /** Open parentheses minus close parentheses in s[i..j]. */
  function Excess(s: string, i: nat, j: nat): int
    requires i <= j <= |s|
    decreases j - i
  {
    if j == i then 0
    else Excess(s, i, j - 1) + (if s[j - 1] == '(' then 1 else if s[j - 1] == ')' then -1 else 0)
  }

  /** s[i..j] is a balanced parenthesis word: no prefix closes more than it
      opens, and the whole opens as many as it closes. */
  predicate Balanced(s: string, i: nat, j: nat)
    requires i <= j <= |s|
  {
    && Excess(s, i, j) == 0
    && forall k | i <= k <= j :: Excess(s, i, k) >= 0
  }

  /** What every successful rule guarantees about its result, given the
      index i it started at and the symbol number it started with. */
  predicate Good(s: string, i: nat, count: nat, p: Parsed) {
    && i < p.next <= |s|
    && p.count == count + Size(p.node)
    && NumberedFrom(p.node, count)
    && Literal(p.node)
    && WellFormedSpan(s, i, p.next)
    && Balanced(s, i, p.next)
  }

  /** Where each kind of error points: "expected symbol" just past a
      character that cannot start an atom, or one past the end of the
      input; "expected ')'" at the end of the input; "unexpected ')'" at a
      ")" met while no parenthesis is open. */
  predicate Located(s: string, depth: nat, e: ParseError) {
    match e.kind
    case ExpectedSymbol => 0 < e.index <= |s| + 1 && (e.index == |s| + 1 || CannotStart(s[e.index - 1]))
    case ExpectedCloseParen => e.index == |s|
    case UnexpectedCloseParen => depth == 0 && e.index < |s| && s[e.index] == ')'
  }

  /** atom ::= char | "(" alt ")". The cursor moves past the first
      character before it is examined, so a failure found there reports
      the index after it. Parentheses create no node of their own. */
  function ParseAtom(s: string, i: nat, count: nat, depth: nat): (r: Result<Parsed>)
    requires i <= |s|
    ensures r.Success? ==> Good(s, i, count, r.value)
    ensures r.Success? ==> s[r.value.next - 1] != '*'
    ensures r.Success? && s[i] != '(' ==> r.value == Parsed(Symbol(s[i], count), i + 1, count + 1)
    ensures i == |s| || CannotStart(s[i]) ==> r == Failure(ParseError(ExpectedSymbol, i + 1))
    ensures r.Failure? ==> Located(s, depth, r.error)
    decreases |s| - i, 0
  {
    if i < |s| && s[i] == '(' then
      match ParseAlt(s, i + 1, count, depth + 1)
      case Failure(e) => Failure(e)
      case Success(p) =>
        if p.next < |s| && s[p.next] == ')' then
          var q := Parsed(p.node, p.next + 1, p.count);
          ParenthesizedGood(s, i, count, p, q);
          Success(q)
        else
          Failure(ParseError(ExpectedCloseParen, p.next))
    else if i == |s| || CannotStart(s[i]) then
      Failure(ParseError(ExpectedSymbol, i + 1))
    else
      var q := Parsed(Symbol(s[i], count), i + 1, count + 1);
      assert Excess(s, i, i + 1) == 0;
      Success(q)
  }

  /** star ::= atom | atom "*". At most one star is consumed. */
  function ParseStar(s: string, i: nat, count: nat, depth: nat): (r: Result<Parsed>)
    requires i <= |s|
    ensures r.Success? ==> Good(s, i, count, r.value)
    ensures i == |s| || CannotStart(s[i]) ==> r.Failure?
    ensures r.Failure? ==> Located(s, depth, r.error)
    decreases |s| - i, 1
  {
    match ParseAtom(s, i, count, depth)
    case Failure(e) => Failure(e)
    case Success(p) =>
      if p.next < |s| && s[p.next] == '*' then
        var q := Parsed(Star(p.node), p.next + 1, p.count);
        StarredGood(s, i, count, p, q);
        Success(q)
      else
        Success(p)
  }

  /** concat ::= star | star concat, built right-nested. It stops only at
      "|", ")" or the end of the input. */
  function ParseConcat(s: string, i: nat, count: nat, depth: nat): (r: Result<Parsed>)
    requires i <= |s|
    ensures r.Success? ==> Good(s, i, count, r.value)
    ensures r.Success? ==> r.value.next == |s| || s[r.value.next] == '|' || s[r.value.next] == ')'
    ensures i == |s| || CannotStart(s[i]) ==> r.Failure?
    ensures r.Failure? ==> Located(s, depth, r.error)
    decreases |s| - i, 2
  {
    match ParseStar(s, i, count, depth)
    case Failure(e) => Failure(e)
    case Success(p) =>
      if p.next < |s| && s[p.next] != '|' && s[p.next] != ')' then
        match ParseConcat(s, p.next, p.count, depth)
        case Failure(e) => Failure(e)
        case Success(q) =>
          var c := Parsed(Concat(p.node, q.node), q.next, q.count);
          JoinedGood(s, i, count, p, q, c);
          Success(c)
      else
        Success(p)
  }

  /** alt ::= concat | concat "|" alt, built right-nested. A ")" that
      follows a concatenation while no parenthesis is open is an error;
      so a success ends at the end of the input, or at a ")" closing an
      open parenthesis. */
  function ParseAlt(s: string, i: nat, count: nat, depth: nat): (r: Result<Parsed>)
    requires i <= |s|
    ensures r.Success? ==> Good(s, i, count, r.value)
    ensures r.Success? ==> r.value.next == |s| || (s[r.value.next] == ')' && depth > 0)
    ensures i == |s| || CannotStart(s[i]) ==> r.Failure?
    ensures r.Failure? ==> Located(s, depth, r.error)
    decreases |s| - i, 3
  {
    match ParseConcat(s, i, count, depth)
    case Failure(e) => Failure(e)
    case Success(p) =>
      if p.next < |s| && s[p.next] == ')' && depth == 0 then
        Failure(ParseError(UnexpectedCloseParen, p.next))
      else if p.next < |s| && s[p.next] == '|' then
        match ParseAlt(s, p.next + 1, p.count, depth)
        case Failure(e) => Failure(e)
        case Success(q) =>
          var c := Parsed(Alt(p.node, q.node), q.next, q.count);
          SeparatedGood(s, i, count, p, q, c);
          Success(c)
      else
        Success(p)
  }

  /** Parses a whole pattern: symbols are numbered from 1. A success has
      consumed the entire input. */
  function Parse(s: string): (r: Result<Node>)
    ensures r.Success? ==> NumberedFrom(r.value, 1) && Literal(r.value)
    ensures r.Success? ==> |s| > 0 && WellFormedSpan(s, 0, |s|) && Balanced(s, 0, |s|)
    ensures r.Success? <==> ParseAlt(s, 0, 1, 0).Success?
    ensures r.Failure? ==> Located(s, 0, r.error)
  {
    match ParseAlt(s, 0, 1, 0)
    case Failure(e) => Failure(e)
    case Success(p) => Success(p.node)
  }

  /** The parser object: its input and the tree cached by the first
      successful call of `parse`. */
  datatype ParserState = ParserState(input: string, parsed: Option<Node>)

  datatype Option<T> = None | Some(value: T)

  /** `parse` on a parser object: the first call parses and caches the
      tree; later calls return the cached tree without reading the input. */
  function ParseCached(p: ParserState): (r: (ParserState, Result<Node>))
    ensures r.0.input == p.input
    ensures p.parsed.Some? ==> r == (p, Success(p.parsed.value))
    ensures p.parsed.None? ==> r.1 == Parse(p.input)
    ensures r.1.Success? ==> r.0.parsed == Some(r.1.value)
  {
    if p.parsed.Some? then (p, Success(p.parsed.value))
    else
      match Parse(p.input)
      case Failure(e) => (p, Failure(e))
      case Success(n) => (ParserState(p.input, Some(n)), Success(n))
  }

  // ----- Lemmas that build a rule's guarantee from its parts -----

  lemma ExcessSplit(s: string, i: nat, j: nat, k: nat)
    requires i <= j <= k <= |s|
    ensures Excess(s, i, k) == Excess(s, i, j) + Excess(s, j, k)
    decreases k - j
  {
    if k > j {
      ExcessSplit(s, i, j, k - 1);
    }
  }

  /** Two balanced words side by side form a balanced word. */
  lemma BalancedJoin(s: string, i: nat, j: nat, k: nat)
    requires i <= j <= k <= |s|
    requires Balanced(s, i, j) && Balanced(s, j, k)
    ensures Balanced(s, i, k)
  {
    ExcessSplit(s, i, j, k);
    forall m | j <= m <= k ensures Excess(s, i, m) >= 0 {
      ExcessSplit(s, i, j, m);
    }
  }

  /** A balanced word followed by a character that is not a parenthesis. */
  lemma BalancedExtend(s: string, i: nat, j: nat)
    requires i <= j < |s| && s[j] != '(' && s[j] != ')'
    requires Balanced(s, i, j)
    ensures Balanced(s, i, j + 1)
  {
  }

  /** A balanced word wrapped in a pair of parentheses. */
  lemma BalancedWrap(s: string, i: nat, j: nat)
    requires 0 < i <= j < |s| && s[i - 1] == '(' && s[j] == ')'
    requires Balanced(s, i, j)
    ensures Balanced(s, i - 1, j + 1)
  {
    var o := i - 1;
    forall m | i <= m <= j ensures Excess(s, o, m) == 1 + Excess(s, i, m) {
      ExcessSplit(s, o, i, m);
    }
    assert Excess(s, o, j + 1) == Excess(s, o, j) - 1;
    forall m | o <= m <= j + 1 ensures Excess(s, o, m) >= 0 {
      if i <= m <= j {
        assert Excess(s, i, m) >= 0;
      }
    }
  }

  lemma ParenthesizedGood(s: string, i: nat, count: nat, p: Parsed, q: Parsed)
    requires i < |s| && s[i] == '('
    requires Good(s, i + 1, count, p)
    requires p.next < |s| && s[p.next] == ')'
    requires q == Parsed(p.node, p.next + 1, p.count)
    ensures Good(s, i, count, q)
  {
    BalancedWrap(s, i + 1, p.next);
  }

  lemma StarredGood(s: string, i: nat, count: nat, p: Parsed, q: Parsed)
    requires Good(s, i, count, p) && s[p.next - 1] != '*'
    requires p.next < |s| && s[p.next] == '*'
    requires q == Parsed(Star(p.node), p.next + 1, p.count)
    ensures Good(s, i, count, q)
  {
    BalancedExtend(s, i, p.next);
  }

  lemma JoinedGood(s: string, i: nat, count: nat, p: Parsed, q: Parsed, c: Parsed)
    requires Good(s, i, count, p) && Good(s, p.next, p.count, q)
    requires c == Parsed(Concat(p.node, q.node), q.next, q.count)
    ensures Good(s, i, count, c)
  {
    BalancedJoin(s, i, p.next, q.next);
  }

  lemma SeparatedGood(s: string, i: nat, count: nat, p: Parsed, q: Parsed, c: Parsed)
    requires Good(s, i, count, p)
    requires p.next < |s| && s[p.next] == '|'
    requires Good(s, p.next + 1, p.count, q)
    requires c == Parsed(Alt(p.node, q.node), q.next, q.count)
    ensures Good(s, i, count, c)
  {
    BalancedExtend(s, i, p.next);
    BalancedJoin(s, i, p.next + 1, q.next);
  }
}

module ParserFacts {
  import opened Tree
  import opened Parser
  import Printer

  /** A successful parse numbers its symbols 1..N without gaps, so the
      position map has exactly the keys 1..N, every index is positive and
      the operands of every binary node have disjoint positions. */
  lemma ParsedPositions(s: string)
    requires Parse(s).Success?
    ensures Pos(Parse(s).value).Keys == Interval(1, 1 + Size(Parse(s).value))
    ensures |Pos(Parse(s).value)| == Size(Parse(s).value)
    ensures Positive(Parse(s).value) && Linear(Parse(s).value)
  {
    NumberedPositions(Parse(s).value, 1);
  }

  /** The shapes of text no successful parse produces: empty input, a
      leading ")", "|" or "*", a trailing "(" or "|", two adjacent
      characters that cannot follow each other, or unbalanced
      parentheses. */
  lemma MalformedFails(s: string)
    requires || |s| == 0
             || CannotStart(s[0])
             || CannotEnd(s[|s| - 1])
             || (exists k | 0 <= k < |s| - 1 :: BadPair(s[k], s[k + 1]))
             || !Balanced(s, 0, |s|)
    ensures Parse(s).Failure?
  {
  }

  /** The rejected patterns of the parser's test table that fail on
      their first or last character. */
  lemma RejectedAtTheEdges()
    ensures Parse("").Failure? && Parse("(").Failure? && Parse(")").Failure?
    ensures Parse("*").Failure? && Parse("|").Failure? && Parse("*a").Failure?
    ensures Parse("|a").Failure? && Parse("(a|").Failure?
  {
    MalformedFails("");
    MalformedFails("(");
    MalformedFails(")");
    MalformedFails("*");
    MalformedFails("|");
    MalformedFails("*a");
    MalformedFails("|a");
    MalformedFails("(a|");
  }

  /** The rejected patterns of the parser's test table that contain two
      characters that cannot follow each other. */
  lemma RejectedAdjacent()
    ensures Parse("()").Failure? && Parse("a|)").Failure? && Parse("a|*").Failure?
    ensures Parse("a||b").Failure? && Parse("a**").Failure? && Parse("a|()").Failure?
  {
    assert BadPair("()"[0], "()"[1]);
    MalformedFails("()");
    assert BadPair("a|)"[1], "a|)"[2]);
    MalformedFails("a|)");
    assert BadPair("a|*"[1], "a|*"[2]);
    MalformedFails("a|*");
    assert BadPair("a||b"[1], "a||b"[2]);
    MalformedFails("a||b");
    assert BadPair("a**"[1], "a**"[2]);
    MalformedFails("a**");
    assert BadPair("a|()"[2], "a|()"[3]);
    MalformedFails("a|()");
  }

  /** The rejected patterns of the parser's test table that close more
      parentheses than they open. */
  lemma RejectedUnbalancedClose()
    ensures Parse("a)").Failure? && Parse("a(bc)*)*").Failure? && Parse("(((a))))").Failure?
  {
    ExampleStrayClose();
    RejectedCloseAfterGroup();
    RejectedCloseNested();
  }

  lemma RejectedCloseAfterGroup()
    ensures Parse("a(bc)*)*").Failure?
  {
    UnbalancedByCount("a(bc)*)*", -1);
  }

  lemma RejectedCloseNested()
    ensures Parse("(((a))))").Failure?
  {
    UnbalancedByCount("(((a))))", -1);
  }

  /** The rejected patterns of the parser's test table that open more
      parentheses than they close. */
  lemma RejectedUnbalancedOpen()
    ensures Parse("(a").Failure? && Parse("((((a)))").Failure?
  {
    assert Parse("(a").Failure? by {
      UnbalancedByCount("(a", 1);
    }
    assert Parse("((((a)))").Failure? by {
      UnbalancedByCount("((((a)))", 1);
    }
  }

  /** Excess counted by a simple recursion on the text, to evaluate it on
      literal patterns cheaply. */
  function Count(t: string): int {
    if |t| == 0 then 0
    else (if t[0] == '(' then 1 else if t[0] == ')' then -1 else 0) + Count(t[1..])
  }

  lemma {:induction false} ExcessIsCount(s: string, i: nat, j: nat)
    requires i <= j <= |s|
    ensures Excess(s, i, j) == Count(s[i..j])
    decreases j - i
  {
    if i < j {
      ExcessSplit(s, i, i + 1, j);
      ExcessIsCount(s, i + 1, j);
      assert s[i..j][1..] == s[i + 1..j];
    }
  }

  lemma UnbalancedByCount(s: string, e: int)
    requires 0 < |s| && Count(s) == e && e != 0
    ensures Parse(s).Failure?
  {
    ExcessIsCount(s, 0, |s|);
    assert s[0..|s|] == s;
  }

  lemma ExampleNested()
    ensures Parse("((a))") == Success(Symbol('a', 1))
  {
    var s := "((a))";
    assert ParseAtom(s, 2, 1, 2) == Success(Parsed(Symbol('a', 1), 3, 2));
    assert ParseAlt(s, 2, 1, 2) == Success(Parsed(Symbol('a', 1), 3, 2));
    assert ParseAtom(s, 1, 1, 1) == Success(Parsed(Symbol('a', 1), 4, 2));
    assert ParseAlt(s, 1, 1, 1) == Success(Parsed(Symbol('a', 1), 4, 2));
    assert ParseAtom(s, 0, 1, 0) == Success(Parsed(Symbol('a', 1), 5, 2));
  }

  /** Alternation nests to the right: b|a|b is b | (a | b). */
  lemma ExampleRightNestedAlt()
    ensures Parse("b|a|b") == Success(Alt(Symbol('b', 1), Alt(Symbol('a', 2), Symbol('b', 3))))
  {
    var n := Alt(Symbol('b', 1), Alt(Symbol('a', 2), Symbol('b', 3)));
    Printer.ParsePrinted(n);
    assert Printer.Show(n) == "b|a|b";
  }

  /** A group whose alternation runs to the end of the input fails with
      "expected ')'" there; one that stops before the end is closed. */
  lemma AtomUnclosed(s: string, i: nat, count: nat, depth: nat)
    requires i < |s| && s[i] == '(' && ParseAlt(s, i + 1, count, depth + 1).Success?
    ensures ParseAtom(s, i, count, depth).Failure?
            <==> ParseAlt(s, i + 1, count, depth + 1).value.next == |s|
    ensures ParseAtom(s, i, count, depth).Failure?
            ==> ParseAtom(s, i, count, depth) == Failure(ParseError(ExpectedCloseParen, |s|))
  {
  }

  /** While no parenthesis is open, a concatenation followed by ")" makes
      the alternation fail with "unexpected ')'" at that ")". */
  lemma AltStrayClose(s: string, i: nat, count: nat, depth: nat)
    requires i <= |s| && depth == 0 && ParseConcat(s, i, count, depth).Success?
    requires ParseConcat(s, i, count, depth).value.next < |s|
    requires s[ParseConcat(s, i, count, depth).value.next] == ')'
    ensures ParseAlt(s, i, count, depth)
            == Failure(ParseError(UnexpectedCloseParen, ParseConcat(s, i, count, depth).value.next))
  {
  }

  /** A ")" with no open parenthesis is reported at its own index. */
  lemma ExampleStrayClose()
    ensures Parse("a)") == Failure(ParseError(UnexpectedCloseParen, 1))
  {
    assert ParseConcat("a)", 0, 1, 0) == Success(Parsed(Symbol('a', 1), 1, 2));
  }

  /** A group left open is reported at the end of the input, where ")"
      was expected. */
  lemma ExampleUnclosed()
    ensures Parse("(a") == Failure(ParseError(ExpectedCloseParen, 2))
  {
    assert ParseConcat("(a", 1, 1, 1) == Success(Parsed(Symbol('a', 1), 2, 2));
    assert ParseAlt("(a", 1, 1, 1) == Success(Parsed(Symbol('a', 1), 2, 2));
  }

  lemma ExampleDoubleStar()
    ensures Parse("a**") == Failure(ParseError(ExpectedSymbol, 3))
  {
    var s := "a**";
    assert ParseStar(s, 0, 1, 0) == Success(Parsed(Star(Symbol('a', 1)), 2, 2));
    assert ParseConcat(s, 2, 2, 0) == Failure(ParseError(ExpectedSymbol, 3));
  }
}
