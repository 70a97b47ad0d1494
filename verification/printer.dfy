/** Printing a syntax tree back to pattern text, and the round trip
    through the parser.

    The printer writes the fewest parentheses the grammar needs: an
    operand is parenthesised only when its operator binds more loosely
    than its place allows. Concatenation and alternation nest to the
    right, as the parser builds them, so a right operand of the same
    operator needs no parentheses.
 */
module Printer {
  import opened Tree
  import opened Parser

  /** How loosely the node's outermost operator binds: a symbol 0, a star
      1, a concatenation 2, an alternation 3. */
  function Level(n: Node): nat {
    match n
    case Symbol(_, _) => 0
    case Star(_) => 1
    case Concat(_, _) => 2
    case Alt(_, _) => 3
  }

  /** The text of n, without parentheses around the whole. */
  function Show(n: Node): (t: string)
    ensures |t| > 0
    decreases n, 0
  {
    match n
    case Symbol(v, _) => [v]
    case Star(c) => Wrap(c, 0) + "*"
    case Concat(l, r) => Wrap(l, 1) + Wrap(r, 2)
    case Alt(l, r) => Wrap(l, 2) + "|" + Wrap(r, 3)
  }

  /** The text of n in a place that admits operators up to `level`. */
  function Wrap(n: Node, level: nat): (t: string)
    ensures |t| > 0
    decreases n, 1
  {
    if Level(n) > level then "(" + Show(n) + ")" else Show(n)
  }

  /** The text t occurs in s at index i. */
  predicate At(s: string, i: nat, t: string) {
    i + |t| <= |s| && s[i..i + |t|] == t
  }

  lemma AtSplit(s: string, i: nat, a: string, b: string)
    requires At(s, i, a + b)
    ensures At(s, i, a) && At(s, i + |a|, b)
  {
    assert s[i..i + |a|] == (a + b)[..|a|];
    assert s[i + |a|..i + |a| + |b|] == (a + b)[|a|..];
  }

  lemma AtHead(s: string, i: nat, t: string)
    requires At(s, i, t) && |t| > 0
    ensures i < |s| && s[i] == t[0]
  {
    assert s[i..i + |t|][0] == s[i];
  }

  /** Printed text starts with "(" or with a literal character. */
  lemma WrapStart(n: Node, level: nat)
    requires Literal(n)
    ensures Wrap(n, level)[0] == '(' || !Reserved(Wrap(n, level)[0])
    decreases n
  {
    if Level(n) <= level {
      match n
      case Symbol(_, _) =>
      case Star(c) => WrapStart(c, 0);
      case Concat(l, r) => WrapStart(l, 1);
      case Alt(l, r) => WrapStart(l, 2);
    }
  }

  // ----- One step of each grammar rule -----

  lemma AltContinues(s: string, i: nat, count: nat, depth: nat, l: Node, r: Node, k: nat, m: nat, j: nat, e: nat)
    requires i <= |s| && ParseConcat(s, i, count, depth) == Success(Parsed(l, k, m))
    requires k < |s| && s[k] == '|' && ParseAlt(s, k + 1, m, depth) == Success(Parsed(r, j, e))
    ensures ParseAlt(s, i, count, depth) == Success(Parsed(Alt(l, r), j, e))
  {
  }

  lemma AltStops(s: string, i: nat, count: nat, depth: nat, p: Parsed)
    requires i <= |s| && ParseConcat(s, i, count, depth) == Success(p)
    requires p.next == |s| || (s[p.next] == ')' && depth > 0)
    ensures ParseAlt(s, i, count, depth) == Success(p)
  {
  }

  lemma ConcatContinues(s: string, i: nat, count: nat, depth: nat, l: Node, r: Node, k: nat, m: nat, j: nat, e: nat)
    requires i <= |s| && ParseStar(s, i, count, depth) == Success(Parsed(l, k, m))
    requires k < |s| && s[k] != '|' && s[k] != ')'
    requires ParseConcat(s, k, m, depth) == Success(Parsed(r, j, e))
    ensures ParseConcat(s, i, count, depth) == Success(Parsed(Concat(l, r), j, e))
  {
  }

  lemma ConcatStops(s: string, i: nat, count: nat, depth: nat, p: Parsed)
    requires i <= |s| && ParseStar(s, i, count, depth) == Success(p)
    requires p.next == |s| || s[p.next] == '|' || s[p.next] == ')'
    ensures ParseConcat(s, i, count, depth) == Success(p)
  {
  }

  lemma StarContinues(s: string, i: nat, count: nat, depth: nat, p: Parsed)
    requires i <= |s| && ParseAtom(s, i, count, depth) == Success(p)
    requires p.next < |s| && s[p.next] == '*'
    ensures ParseStar(s, i, count, depth) == Success(Parsed(Star(p.node), p.next + 1, p.count))
  {
  }

  lemma StarStops(s: string, i: nat, count: nat, depth: nat, p: Parsed)
    requires i <= |s| && ParseAtom(s, i, count, depth) == Success(p)
    requires p.next == |s| || s[p.next] != '*'
    ensures ParseStar(s, i, count, depth) == Success(p)
  {
  }

  lemma AtomGroup(s: string, i: nat, count: nat, depth: nat, p: Parsed)
    requires i < |s| && s[i] == '(' && ParseAlt(s, i + 1, count, depth + 1) == Success(p)
    requires p.next < |s| && s[p.next] == ')'
    ensures ParseAtom(s, i, count, depth) == Success(Parsed(p.node, p.next + 1, p.count))
  {
  }

  /** The text of an alternation: its left operand, "|", its right operand. */
  lemma AltText(s: string, i: nat, l: Node, r: Node)
    requires At(s, i, Show(Alt(l, r)))
    ensures At(s, i, Wrap(l, 2)) && At(s, i + |Wrap(l, 2)| + 1, Show(r))
    ensures s[i + |Wrap(l, 2)|] == '|'
    ensures |Show(Alt(l, r))| == |Wrap(l, 2)| + 1 + |Show(r)|
  {
    var a := Wrap(l, 2);
    assert Wrap(r, 3) == Show(r);
    assert Show(Alt(l, r)) == (a + "|") + Show(r);
    AtSplit(s, i, a + "|", Show(r));
    AtSplit(s, i, a, "|");
    AtHead(s, i + |a|, "|");
  }

  /** The text of a starred node: its operand, then "*". */
  lemma StarText(s: string, i: nat, c: Node)
    requires At(s, i, Wrap(Star(c), 1))
    ensures At(s, i, Wrap(c, 0))
    ensures i + |Wrap(c, 0)| < |s| && s[i + |Wrap(c, 0)|] == '*'
    ensures |Wrap(Star(c), 1)| == |Wrap(c, 0)| + 1
  {
    var a := Wrap(c, 0);
    assert Wrap(Star(c), 1) == a + "*";
    AtSplit(s, i, a, "*");
    AtHead(s, i + |a|, "*");
  }

  /** The text of a parenthesised node: "(", its text, ")". */
  lemma GroupText(s: string, i: nat, n: Node)
    requires !n.Symbol? && At(s, i, Wrap(n, 0))
    ensures i < |s| && s[i] == '('
    ensures At(s, i + 1, Show(n))
    ensures i + 1 + |Show(n)| < |s| && s[i + 1 + |Show(n)|] == ')'
    ensures |Wrap(n, 0)| == |Show(n)| + 2
  {
    assert Wrap(n, 0) == "(" + Show(n) + ")";
    Parenthesized(s, i, Show(n));
  }

  lemma Parenthesized(s: string, i: nat, t: string)
    requires At(s, i, "(" + t + ")")
    ensures i < |s| && s[i] == '('
    ensures At(s, i + 1, t)
    ensures i + 1 + |t| < |s| && s[i + 1 + |t|] == ')'
  {
    AtSplit(s, i, "(" + t, ")");
    AtSplit(s, i, "(", t);
    AtHead(s, i, "(");
    AtHead(s, i + 1 + |t|, ")");
  }

  /** The text of a concatenation: its left operand, then its right one,
      which starts with "(" or a literal character. */
  lemma ConcatText(s: string, i: nat, l: Node, r: Node)
    requires Literal(r) && At(s, i, Wrap(Concat(l, r), 2))
    ensures At(s, i, Wrap(l, 1)) && At(s, i + |Wrap(l, 1)|, Wrap(r, 2))
    ensures |Wrap(Concat(l, r), 2)| == |Wrap(l, 1)| + |Wrap(r, 2)|
    ensures s[i + |Wrap(l, 1)|] == '(' || !Reserved(s[i + |Wrap(l, 1)|])
  {
    assert Wrap(Concat(l, r), 2) == Wrap(l, 1) + Wrap(r, 2);
    AtSplit(s, i, Wrap(l, 1), Wrap(r, 2));
    WrapStart(r, 2);
    AtHead(s, i + |Wrap(l, 1)|, Wrap(r, 2));
  }

  /** The alternation rule reads the text of n back as n, when it is
      followed by the end of the input or by ")" inside parentheses. */
  lemma {:induction false} AltReads(s: string, i: nat, n: Node, count: nat, depth: nat)
    requires Literal(n) && NumberedFrom(n, count) && At(s, i, Show(n))
    requires i + |Show(n)| == |s| || (s[i + |Show(n)|] == ')' && depth > 0)
    ensures ParseAlt(s, i, count, depth) == Success(Parsed(n, i + |Show(n)|, count + Size(n)))
    decreases n, (7 - Level(n)) % 4, 2
  {
    if n.Alt? {
      AltReadsAlt(s, i, n.left, n.right, count, depth);
    } else {
      AltReadsConcat(s, i, n, count, depth);
    }
  }

  lemma {:induction false} AltReadsAlt(s: string, i: nat, l: Node, r: Node, count: nat, depth: nat)
    requires Literal(Alt(l, r)) && NumberedFrom(Alt(l, r), count) && At(s, i, Show(Alt(l, r)))
    requires i + |Show(Alt(l, r))| == |s| || (s[i + |Show(Alt(l, r))|] == ')' && depth > 0)
    ensures ParseAlt(s, i, count, depth) == Success(Parsed(Alt(l, r), i + |Show(Alt(l, r))|, count + Size(Alt(l, r))))
    decreases Alt(l, r), 0, 1
  {
    AltText(s, i, l, r);
    var k := i + |Wrap(l, 2)|;
    assert ParseConcat(s, i, count, depth) == Success(Parsed(l, k, count + Size(l))) by {
      ConcatReads(s, i, l, count, depth);
    }
    AltJoin(s, i, l, r, count, depth, k, i + |Show(Alt(l, r))|);
  }

  /** An alternation whose left operand has been read up to the "|" at k
      reads its right operand as well. */
  lemma {:induction false} AltJoin(s: string, i: nat, l: Node, r: Node, count: nat, depth: nat, k: nat, j: nat)
    requires i <= k < |s| && s[k] == '|'
    requires ParseConcat(s, i, count, depth) == Success(Parsed(l, k, count + Size(l)))
    requires Literal(r) && NumberedFrom(r, count + Size(l)) && At(s, k + 1, Show(r)) && j == k + 1 + |Show(r)|
    requires j == |s| || (s[j] == ')' && depth > 0)
    ensures ParseAlt(s, i, count, depth) == Success(Parsed(Alt(l, r), j, count + Size(Alt(l, r))))
    decreases Alt(l, r), 0, 0
  {
    var m := count + Size(l);
    assert ParseAlt(s, k + 1, m, depth) == Success(Parsed(r, j, m + Size(r))) by {
      AltReads(s, k + 1, r, m, depth);
    }
    AltContinues(s, i, count, depth, l, r, k, m, j, m + Size(r));
  }

  lemma {:induction false} AltReadsConcat(s: string, i: nat, n: Node, count: nat, depth: nat)
    requires !n.Alt?
    requires Literal(n) && NumberedFrom(n, count) && At(s, i, Show(n))
    requires i + |Show(n)| == |s| || (s[i + |Show(n)|] == ')' && depth > 0)
    ensures ParseAlt(s, i, count, depth) == Success(Parsed(n, i + |Show(n)|, count + Size(n)))
    decreases n, (7 - Level(n)) % 4, 0
  {
    assert Wrap(n, 2) == Show(n);
    ConcatReads(s, i, n, count, depth);
    AltStops(s, i, count, depth, Parsed(n, i + |Show(n)|, count + Size(n)));
  }

  /** The concatenation rule reads the text of n back as n, when it is
      followed by "|", ")" or the end of the input. */
  lemma {:induction false} ConcatReads(s: string, i: nat, n: Node, count: nat, depth: nat)
    requires Literal(n) && NumberedFrom(n, count) && At(s, i, Wrap(n, 2))
    requires i + |Wrap(n, 2)| == |s| || s[i + |Wrap(n, 2)|] == '|' || s[i + |Wrap(n, 2)|] == ')'
    ensures ParseConcat(s, i, count, depth) == Success(Parsed(n, i + |Wrap(n, 2)|, count + Size(n)))
    decreases n, (6 - Level(n)) % 4, 2
  {
    if n.Concat? {
      ConcatReadsConcat(s, i, n.left, n.right, count, depth);
    } else {
      ConcatReadsStar(s, i, n, count, depth);
    }
  }

  lemma {:induction false} ConcatReadsConcat(s: string, i: nat, l: Node, r: Node, count: nat, depth: nat)
    requires Literal(Concat(l, r)) && NumberedFrom(Concat(l, r), count) && At(s, i, Wrap(Concat(l, r), 2))
    requires var j := i + |Wrap(Concat(l, r), 2)|; j == |s| || s[j] == '|' || s[j] == ')'
    ensures ParseConcat(s, i, count, depth)
            == Success(Parsed(Concat(l, r), i + |Wrap(Concat(l, r), 2)|, count + Size(Concat(l, r))))
    decreases Concat(l, r), 0, 1
  {
    ConcatText(s, i, l, r);
    var k := i + |Wrap(l, 1)|;
    assert ParseStar(s, i, count, depth) == Success(Parsed(l, k, count + Size(l))) by {
      StarReads(s, i, l, count, depth);
    }
    ConcatJoin(s, i, l, r, count, depth, k, i + |Wrap(Concat(l, r), 2)|);
  }

  /** A concatenation whose left operand has been read up to k reads its
      right operand as well, when something other than "|" or ")" follows
      the left operand. */
  lemma {:induction false} ConcatJoin(s: string, i: nat, l: Node, r: Node, count: nat, depth: nat, k: nat, j: nat)
    requires i <= k < |s| && s[k] != '|' && s[k] != ')'
    requires ParseStar(s, i, count, depth) == Success(Parsed(l, k, count + Size(l)))
    requires Literal(r) && NumberedFrom(r, count + Size(l)) && At(s, k, Wrap(r, 2)) && j == k + |Wrap(r, 2)|
    requires j == |s| || s[j] == '|' || s[j] == ')'
    ensures ParseConcat(s, i, count, depth) == Success(Parsed(Concat(l, r), j, count + Size(Concat(l, r))))
    decreases Concat(l, r), 0, 0
  {
    var m := count + Size(l);
    assert ParseConcat(s, k, m, depth) == Success(Parsed(r, j, m + Size(r))) by {
      ConcatReads(s, k, r, m, depth);
    }
    ConcatContinues(s, i, count, depth, l, r, k, m, j, m + Size(r));
  }

  lemma {:induction false} ConcatReadsStar(s: string, i: nat, n: Node, count: nat, depth: nat)
    requires !n.Concat?
    requires Literal(n) && NumberedFrom(n, count) && At(s, i, Wrap(n, 2))
    requires i + |Wrap(n, 2)| == |s| || s[i + |Wrap(n, 2)|] == '|' || s[i + |Wrap(n, 2)|] == ')'
    ensures ParseConcat(s, i, count, depth) == Success(Parsed(n, i + |Wrap(n, 2)|, count + Size(n)))
    decreases n, (6 - Level(n)) % 4, 0
  {
    assert Wrap(n, 1) == Wrap(n, 2);
    StarReads(s, i, n, count, depth);
    ConcatStops(s, i, count, depth, Parsed(n, i + |Wrap(n, 2)|, count + Size(n)));
  }

  /** The star rule reads the text of n back as n, when it is not
      followed by "*". */
  lemma {:induction false} StarReads(s: string, i: nat, n: Node, count: nat, depth: nat)
    requires Literal(n) && NumberedFrom(n, count) && At(s, i, Wrap(n, 1))
    requires i + |Wrap(n, 1)| == |s| || s[i + |Wrap(n, 1)|] != '*'
    ensures ParseStar(s, i, count, depth) == Success(Parsed(n, i + |Wrap(n, 1)|, count + Size(n)))
    decreases n, (5 - Level(n)) % 4, 1
  {
    if n.Star? {
      StarReadsStar(s, i, n.child, count, depth);
    } else {
      StarReadsAtom(s, i, n, count, depth);
    }
  }

  lemma {:induction false} StarReadsStar(s: string, i: nat, c: Node, count: nat, depth: nat)
    requires Literal(Star(c)) && NumberedFrom(Star(c), count) && At(s, i, Wrap(Star(c), 1))
    ensures ParseStar(s, i, count, depth) == Success(Parsed(Star(c), i + |Wrap(Star(c), 1)|, count + Size(c)))
    decreases Star(c), 0, 0
  {
    StarText(s, i, c);
    AtomReads(s, i, c, count, depth);
    StarContinues(s, i, count, depth, Parsed(c, i + |Wrap(c, 0)|, count + Size(c)));
  }

  lemma {:induction false} StarReadsAtom(s: string, i: nat, n: Node, count: nat, depth: nat)
    requires !n.Star?
    requires Literal(n) && NumberedFrom(n, count) && At(s, i, Wrap(n, 1))
    requires i + |Wrap(n, 1)| == |s| || s[i + |Wrap(n, 1)|] != '*'
    ensures ParseStar(s, i, count, depth) == Success(Parsed(n, i + |Wrap(n, 1)|, count + Size(n)))
    decreases n, (5 - Level(n)) % 4, 0
  {
    assert Wrap(n, 0) == Wrap(n, 1);
    AtomReads(s, i, n, count, depth);
    StarStops(s, i, count, depth, Parsed(n, i + |Wrap(n, 1)|, count + Size(n)));
  }

  /** The atom rule reads the text of n back as n: a symbol, or the
      parenthesised text of any other node. */
  lemma {:induction false} AtomReads(s: string, i: nat, n: Node, count: nat, depth: nat)
    requires Literal(n) && NumberedFrom(n, count) && At(s, i, Wrap(n, 0))
    ensures ParseAtom(s, i, count, depth) == Success(Parsed(n, i + |Wrap(n, 0)|, count + Size(n)))
    decreases n, (4 - Level(n)) % 4, 1
  {
    if n.Symbol? {
      assert Wrap(n, 0) == [n.value];
      AtHead(s, i, [n.value]);
    } else {
      AtomReadsGroup(s, i, n, count, depth);
    }
  }

  lemma {:induction false} AtomReadsGroup(s: string, i: nat, n: Node, count: nat, depth: nat)
    requires !n.Symbol?
    requires Literal(n) && NumberedFrom(n, count) && At(s, i, Wrap(n, 0))
    ensures ParseAtom(s, i, count, depth) == Success(Parsed(n, i + |Wrap(n, 0)|, count + Size(n)))
    decreases n, (4 - Level(n)) % 4, 0
  {
    GroupText(s, i, n);
    var p := Parsed(n, i + 1 + |Show(n)|, count + Size(n));
    assert ParseAlt(s, i + 1, count, depth + 1) == Success(p) by {
      AltReads(s, i + 1, n, count, depth + 1);
    }
    AtomGroup(s, i, count, depth, p);
  }

  /** Printing a parsed tree and parsing the text gives the tree back:
      every tree whose symbols are literal characters numbered 1..N in
      order is the parse of some pattern, and the parser builds exactly
      the tree the text describes. */
  lemma ParsePrinted(n: Node)
    requires NumberedFrom(n, 1) && Literal(n)
    ensures Parse(Show(n)) == Success(n)
  {
    var s := Show(n);
    assert s[0..|s|] == s;
    AltReads(s, 0, n, 1, 0);
  }
}
