/** The regular-expression syntax tree and its Glushkov attributes.

    A node is a symbol occurrence (a literal character tagged with its
    position index), a Kleene star, a concatenation or an alternation.
    Every attribute is a pure function of the subtree, computed by
    structural recursion exactly as each node variant defines it.
 */
module Tree {

  datatype Node =
    | Symbol(value: char, index: int)
    | Star(child: Node)
    | Concat(left: Node, right: Node)
    | Alt(left: Node, right: Node)

  /** Can the subtree match the empty word? */
  predicate Nullable(n: Node) {
    match n
    case Symbol(_, _) => false
    case Star(_) => true
    case Concat(l, r) => Nullable(l) && Nullable(r)
    case Alt(l, r) => Nullable(l) || Nullable(r)
  }

  /** The position map: every symbol occurrence's index mapped to its
      character. On a clash the right operand's entry wins, as in a
      dictionary union. */
  function Pos(n: Node): (r: map<int, char>)
    ensures r.Keys != {}
    ensures n.Symbol? ==> r == map[n.index := n.value]
  {
    match n
    case Symbol(v, k) => var m := map[k := v]; assert k in m; m
    case Star(c) => Pos(c)
    case Concat(l, r') => Pos(l) + Pos(r')
    case Alt(l, r') => Pos(l) + Pos(r')
  }

  /** Positions that can begin a match. Never empty, and always real
      positions of the subtree. */
  function First(n: Node): (r: set<int>)
    ensures r != {}
    ensures r <= Pos(n).Keys
  {
    match n
    case Symbol(_, k) => {k}
    case Star(c) => First(c)
    case Concat(l, r') => if Nullable(l) then First(l) + First(r') else First(l)
    case Alt(l, r') => First(l) + First(r')
  }

  /** Positions that can end a non-empty match. Never empty, and always
      real positions of the subtree. */
  function Last(n: Node): (r: set<int>)
    ensures r != {}
    ensures r <= Pos(n).Keys
  {
    match n
    case Symbol(_, k) => {k}
    case Star(c) => Last(c)
    case Concat(l, r') => if Nullable(r') then Last(l) + Last(r') else Last(r')
    case Alt(l, r') => Last(l) + Last(r')
  }

  /** `Last` extended with the synthetic "before any symbol" marker 0 when
      the subtree is nullable. With positive indices, 0 is in the result
      exactly when the subtree is nullable. */
  function Last0(n: Node): (r: set<int>)
    ensures r - {0} == Last(n) - {0}
    ensures Nullable(n) ==> 0 in r
    ensures Positive(n) ==> (0 in r <==> Nullable(n))
  {
    if Nullable(n) then Last(n) + {0} else Last(n)
  }

  /** All pairs (i, j) with i drawn from `a` and j from `b`. */
  function Pairs(a: set<int>, b: set<int>): (r: set<(int, int)>)
    ensures forall i, j :: (i, j) in r <==> i in a && j in b
  {
    set i, j | i in a && j in b :: (i, j)
  }

  /** The follow relation: (i, j) when position j may come right after
      position i. Both ends are always real positions of the subtree. */
  function Follow(n: Node): (r: set<(int, int)>)
    ensures forall p | p in r :: p.0 in Pos(n).Keys && p.1 in Pos(n).Keys
  {
    match n
    case Symbol(_, _) => {}
    case Star(c) => Pairs(Last(c), First(c)) + Follow(c)
    case Concat(l, r') => Pairs(Last(l), First(r')) + Follow(l) + Follow(r')
    case Alt(l, r') => Follow(l) + Follow(r')
  }

  /** Every position index is positive, so 0 is free to mark "before". */
  predicate Positive(n: Node) {
    forall k | k in Pos(n).Keys :: k > 0
  }

  /** Number of symbol occurrences in the subtree. */
  function Size(n: Node): nat {
    match n
    case Symbol(_, _) => 1
    case Star(c) => Size(c)
    case Concat(l, r) => Size(l) + Size(r)
    case Alt(l, r) => Size(l) + Size(r)
  }

  /** The symbol occurrences carry the indices lo, lo + 1, ..., in
      left-to-right order. */
  predicate NumberedFrom(n: Node, lo: int) {
    match n
    case Symbol(_, k) => k == lo
    case Star(c) => NumberedFrom(c, lo)
    case Concat(l, r) => NumberedFrom(l, lo) && NumberedFrom(r, lo + Size(l))
    case Alt(l, r) => NumberedFrom(l, lo) && NumberedFrom(r, lo + Size(l))
  }

  /** The operands of every binary node use disjoint sets of positions,
      so that each position names exactly one symbol occurrence. */
  predicate Linear(n: Node) {
    match n
    case Symbol(_, _) => true
    case Star(c) => Linear(c)
    case Concat(l, r) => Linear(l) && Linear(r) && Pos(l).Keys !! Pos(r).Keys
    case Alt(l, r) => Linear(l) && Linear(r) && Pos(l).Keys !! Pos(r).Keys
  }

  /** The integers lo .. hi - 1. */
  function Interval(lo: int, hi: int): (r: set<int>)
    ensures forall k :: k in r <==> lo <= k < hi
    ensures |r| == if lo <= hi then hi - lo else 0
    decreases hi - lo
  {
    if hi <= lo then {} else Interval(lo, hi - 1) + {hi - 1}
  }

  /** A tree numbered from lo has exactly the positions lo .. lo + Size - 1,
      with no gaps and no repeats, so it is linear. */
  lemma {:induction false} NumberedPositions(n: Node, lo: int)
    requires NumberedFrom(n, lo)
    ensures Pos(n).Keys == Interval(lo, lo + Size(n))
    ensures |Pos(n)| == Size(n)
    ensures Linear(n)
  {
    NumberedKeys(n, lo);
    assert |Pos(n)| == |Pos(n).Keys|;
  }

  lemma {:induction false} NumberedKeys(n: Node, lo: int)
    requires NumberedFrom(n, lo)
    ensures forall k :: k in Pos(n) <==> lo <= k < lo + Size(n)
    ensures Linear(n)
  {
    match n
    case Symbol(_, _) =>
    case Star(c) =>
      NumberedKeys(c, lo);
    case Concat(l, r) =>
      NumberedKeys(l, lo);
      NumberedKeys(r, lo + Size(l));
      assert Pos(l).Keys !! Pos(r).Keys by {
        forall k | k in Pos(l).Keys ensures k !in Pos(r).Keys { }
      }
    case Alt(l, r) =>
      NumberedKeys(l, lo);
      NumberedKeys(r, lo + Size(l));
      assert Pos(l).Keys !! Pos(r).Keys by {
        forall k | k in Pos(l).Keys ensures k !in Pos(r).Keys { }
      }
  }

  /** Attributes of the pattern a(ba*b)*, with its symbols numbered 1..4. */
  function Example(): Node {
    Concat(
      Symbol('a', 1),
      Star(Concat(Symbol('b', 2), Concat(Star(Symbol('a', 3)), Symbol('b', 4)))))
  }

  lemma ExampleAttributes()
    ensures !Nullable(Example())
    ensures First(Example()) == {1}
    ensures Last0(Example()) == {1, 4}
    ensures Follow(Example()) == {(1, 2), (2, 3), (2, 4), (3, 3), (3, 4), (4, 2)}
    ensures Pos(Example()) == map[1 := 'a', 2 := 'b', 3 := 'a', 4 := 'b']
  {
    assert Last(Example()) == {1, 4};
    ExampleFollow();
    ExamplePositions();
  }

  lemma ExampleFollow()
    ensures Follow(Example()) == {(1, 2), (2, 3), (2, 4), (3, 3), (3, 4), (4, 2)}
  {
    var body := Example().right.child;
    ExampleBodyFollow();
    assert Pairs({4}, {2}) == {(4, 2)};
    assert Follow(Star(body)) == {(4, 2), (2, 3), (2, 4), (3, 3), (3, 4)};
    assert Pairs({1}, {2}) == {(1, 2)};
  }

  /** The follow pairs of the starred part ba*b of the example. */
  lemma ExampleBodyFollow()
    ensures var body := Example().right.child;
      && First(body) == {2} && Last(body) == {4}
      && Follow(body) == {(2, 3), (2, 4), (3, 3), (3, 4)}
  {
    var inner := Concat(Star(Symbol('a', 3)), Symbol('b', 4));
    assert Pairs({3}, {3}) == {(3, 3)};
    assert Pairs({3}, {4}) == {(3, 4)};
    assert Follow(inner) == {(3, 3), (3, 4)};
    assert Pairs({2}, {3, 4}) == {(2, 3), (2, 4)};
  }

  lemma ExamplePositions()
    ensures Pos(Example()) == map[1 := 'a', 2 := 'b', 3 := 'a', 4 := 'b']
  {
    var inner := Concat(Star(Symbol('a', 3)), Symbol('b', 4));
    assert Pos(inner) == map[3 := 'a', 4 := 'b'];
    var body := Concat(Symbol('b', 2), inner);
    assert Pos(body) == map[2 := 'b', 3 := 'a', 4 := 'b'];
  }
}
