/** The language a syntax tree denotes, independently of the Glushkov
    attributes, and Glushkov's theorem relating the two.

    `Matches` is the textbook semantics on characters. `PositionWord` is
    the same semantics on the linearised expression, where every symbol
    occurrence is its own letter: the words are sequences of positions.
    `Local` is the attribute view of a position sequence: empty exactly
    when the tree is nullable, otherwise starting in `first`, ending in
    `last` and stepping along `follow`. For a linear tree the two
    coincide; labelling positions with their characters then gives
    `Matches`.
 */
module Language {
  import opened Tree

  /** w is in the language of n. */
  ghost predicate Matches(n: Node, w: seq<char>)
    decreases n, |w|
  {
    match n
    case Symbol(v, _) => w == [v]
    case Star(c) => |w| == 0 || exists i | 0 < i <= |w| :: Matches(c, w[..i]) && Matches(n, w[i..])
    case Concat(l, r) => exists i | 0 <= i <= |w| :: Matches(l, w[..i]) && Matches(r, w[i..])
    case Alt(l, r) => Matches(l, w) || Matches(r, w)
  }

  /** A tree is nullable exactly when its language holds the empty word. */
  lemma {:induction false} NullableIffEmptyMatch(n: Node)
    ensures Nullable(n) <==> Matches(n, [])
  {
    var e: seq<char> := [];
    match n
    case Symbol(_, _) =>
    case Star(_) =>
    case Concat(l, r) =>
      NullableIffEmptyMatch(l);
      NullableIffEmptyMatch(r);
      assert e[..0] == e && e[0..] == e;
    case Alt(l, r) =>
      NullableIffEmptyMatch(l);
      NullableIffEmptyMatch(r);
  }

  /** p is in the language of the linearised tree: the positions a match of
      n passes through, in order. */
  ghost predicate PositionWord(n: Node, p: seq<int>)
    decreases n, |p|
  {
    match n
    case Symbol(_, k) => p == [k]
    case Star(c) => |p| == 0 || exists i | 0 < i <= |p| :: PositionWord(c, p[..i]) && PositionWord(n, p[i..])
    case Concat(l, r) => exists i | 0 <= i <= |p| :: PositionWord(l, p[..i]) && PositionWord(r, p[i..])
    case Alt(l, r) => PositionWord(l, p) || PositionWord(r, p)
  }

  /** Every consecutive pair of p is in f. */
  predicate Chained(f: set<(int, int)>, p: seq<int>) {
    forall k | 0 <= k < |p| - 1 :: (p[k], p[k + 1]) in f
  }

  lemma ChainedHead(f: set<(int, int)>, p: seq<int>)
    requires Chained(f, p)
    ensures |p| > 1 ==> (p[0], p[1]) in f
  {
  }

  /** The attribute view of a position sequence. */
  predicate Local(n: Node, p: seq<int>) {
    if |p| == 0 then Nullable(n)
    else p[0] in First(n) && p[|p| - 1] in Last(n) && Chained(Follow(n), p)
  }

  /** p labels to w under the position map m. */
  ghost predicate Spells(m: map<int, char>, p: seq<int>, w: seq<char>) {
    |p| == |w| && forall k | 0 <= k < |p| :: p[k] in m && m[p[k]] == w[k]
  }

  // ----- Chains -----

  lemma ChainedJoin(f: set<(int, int)>, a: seq<int>, b: seq<int>)
    requires Chained(f, a) && Chained(f, b)
    requires |a| > 0 && |b| > 0 ==> (a[|a| - 1], b[0]) in f
    ensures Chained(f, a + b)
  {
    forall k | 0 <= k < |a + b| - 1 ensures ((a + b)[k], (a + b)[k + 1]) in f {
      if k + 1 < |a| {
        assert (a + b)[k] == a[k] && (a + b)[k + 1] == a[k + 1];
      } else if k + 1 == |a| {
        assert (a + b)[k] == a[|a| - 1] && (a + b)[k + 1] == b[0];
      } else {
        var m := k - |a|;
        assert (a + b)[k] == b[m] && (a + b)[k + 1] == b[m + 1];
      }
    }
  }

  lemma ChainedSlice(f: set<(int, int)>, p: seq<int>, i: nat, j: nat)
    requires i <= j <= |p| && Chained(f, p)
    ensures Chained(f, p[i..j])
  {
    forall k | 0 <= k < j - i - 1 ensures (p[i..j][k], p[i..j][k + 1]) in f {
      var m := i + k;
      assert p[i..j][k] == p[m] && p[i..j][k + 1] == p[m + 1];
    }
  }

  lemma ChainedWider(f: set<(int, int)>, g: set<(int, int)>, p: seq<int>)
    requires Chained(f, p) && f <= g
    ensures Chained(g, p)
  {
  }

  /** No pair of f leads from inside `keys` to outside it. */
  predicate Closed(f: set<(int, int)>, keys: set<int>) {
    forall q | q in f && q.0 in keys :: q.1 in keys
  }

  /** A chain that enters a closed set of positions stays in it. */
  lemma {:induction false} ChainStays(f: set<(int, int)>, keys: set<int>, p: seq<int>, from: nat)
    requires Chained(f, p) && from < |p| && p[from] in keys
    requires Closed(f, keys)
    ensures forall k | from <= k < |p| :: p[k] in keys
    decreases |p| - from
  {
    if from + 1 < |p| {
      var q := (p[from], p[from + 1]);
      assert q in f;
      ChainStays(f, keys, p, from + 1);
    }
  }

  /** Every position of a local sequence is a position of the tree. */
  lemma LocalKeys(n: Node, p: seq<int>)
    requires Local(n, p)
    ensures forall k | 0 <= k < |p| :: p[k] in Pos(n)
  {
    forall k | 0 <= k < |p| ensures p[k] in Pos(n) {
      if k > 0 {
        var m := k - 1;
        assert (p[m], p[m + 1]) in Follow(n);
      }
    }
  }

  // ----- Position words are local -----

  lemma LocalConcat(l: Node, r: Node, a: seq<int>, b: seq<int>)
    requires Local(l, a) && Local(r, b)
    ensures Local(Concat(l, r), a + b)
  {
    if |a| == 0 {
      assert a + b == b;
      if |b| > 0 {
        LocalConcatRight(l, r, b);
      }
    } else if |b| == 0 {
      assert a + b == a;
      LocalConcatLeft(l, r, a);
    } else {
      LocalConcatBoth(l, r, a, b);
    }
  }

  lemma LocalConcatRight(l: Node, r: Node, b: seq<int>)
    requires Nullable(l) && |b| > 0 && Local(r, b)
    ensures Local(Concat(l, r), b)
  {
    ChainedWider(Follow(r), Follow(Concat(l, r)), b);
  }

  lemma LocalConcatLeft(l: Node, r: Node, a: seq<int>)
    requires Nullable(r) && |a| > 0 && Local(l, a)
    ensures Local(Concat(l, r), a)
  {
    ChainedWider(Follow(l), Follow(Concat(l, r)), a);
  }

  lemma LocalConcatBoth(l: Node, r: Node, a: seq<int>, b: seq<int>)
    requires |a| > 0 && |b| > 0 && Local(l, a) && Local(r, b)
    ensures Local(Concat(l, r), a + b)
  {
    var f := Follow(Concat(l, r));
    ChainedWider(Follow(l), f, a);
    ChainedWider(Follow(r), f, b);
    assert (a[|a| - 1], b[0]) in Pairs(Last(l), First(r));
    ChainedJoin(f, a, b);
    assert (a + b)[0] == a[0] && (a + b)[|a + b| - 1] == b[|b| - 1];
  }

  lemma LocalStar(c: Node, a: seq<int>, b: seq<int>)
    requires |a| > 0 && Local(c, a) && Local(Star(c), b)
    ensures Local(Star(c), a + b)
  {
    var n := Star(c);
    ChainedWider(Follow(c), Follow(n), a);
    ChainedJoin(Follow(n), a, b);
    if |b| > 0 {
      assert (a + b)[0] == a[0] && (a + b)[|a + b| - 1] == b[|b| - 1];
    } else {
      assert a + b == a;
    }
  }

  /** Soundness of the attributes: every position word of n starts in
      `first`, ends in `last`, steps along `follow`, and is empty only when
      n is nullable. */
  lemma {:induction false} PositionWordIsLocal(n: Node, p: seq<int>)
    requires PositionWord(n, p)
    ensures Local(n, p)
    decreases n, |p|, 1
  {
    match n
    case Symbol(_, _) =>
    case Star(c) => StarWordIsLocal(c, p);
    case Concat(l, r) => ConcatWordIsLocal(l, r, p);
    case Alt(l, r) => AltWordIsLocal(l, r, p);
  }

  lemma {:induction false} StarWordIsLocal(c: Node, p: seq<int>)
    requires PositionWord(Star(c), p)
    ensures Local(Star(c), p)
    decreases Star(c), |p|, 0
  {
    if |p| > 0 {
      var i :| 0 < i <= |p| && PositionWord(c, p[..i]) && PositionWord(Star(c), p[i..]);
      PositionWordIsLocal(c, p[..i]);
      PositionWordIsLocal(Star(c), p[i..]);
      LocalStar(c, p[..i], p[i..]);
      assert p == p[..i] + p[i..];
    }
  }

  lemma {:induction false} ConcatWordIsLocal(l: Node, r: Node, p: seq<int>)
    requires PositionWord(Concat(l, r), p)
    ensures Local(Concat(l, r), p)
    decreases Concat(l, r), |p|, 0
  {
    var i :| 0 <= i <= |p| && PositionWord(l, p[..i]) && PositionWord(r, p[i..]);
    PositionWordIsLocal(l, p[..i]);
    PositionWordIsLocal(r, p[i..]);
    LocalConcat(l, r, p[..i], p[i..]);
    assert p == p[..i] + p[i..];
  }

  lemma {:induction false} AltWordIsLocal(l: Node, r: Node, p: seq<int>)
    requires PositionWord(Alt(l, r), p)
    ensures Local(Alt(l, r), p)
    decreases Alt(l, r), |p|, 0
  {
    if PositionWord(l, p) {
      PositionWordIsLocal(l, p);
      LocalAlt(l, r, p);
    } else {
      PositionWordIsLocal(r, p);
      LocalAlt(r, l, p);
      AltSymmetric(l, r, p);
    }
  }

  lemma LocalAlt(l: Node, r: Node, p: seq<int>)
    requires Local(l, p)
    ensures Local(Alt(l, r), p)
  {
    ChainedWider(Follow(l), Follow(Alt(l, r)), p);
  }

  lemma AltSymmetric(l: Node, r: Node, p: seq<int>)
    ensures Local(Alt(l, r), p) <==> Local(Alt(r, l), p)
  {
    assert First(Alt(l, r)) == First(Alt(r, l));
    assert Last(Alt(l, r)) == Last(Alt(r, l));
    assert Follow(Alt(l, r)) == Follow(Alt(r, l));
  }

  // ----- Local sequences are position words -----

  /** The first index from `from` on whose position is in `keys`, or |p|. */
  function FirstIn(p: seq<int>, keys: set<int>, from: nat): (i: nat)
    requires from <= |p|
    ensures from <= i <= |p|
    ensures forall k | from <= k < i :: p[k] !in keys
    ensures i < |p| ==> p[i] in keys
    decreases |p| - from
  {
    if from == |p| || p[from] in keys then from else FirstIn(p, keys, from + 1)
  }

  /** The first index i from `from` on at which the step from p[i - 1] to
      p[i] is not in f, or |p|. */
  function FirstBreak(f: set<(int, int)>, p: seq<int>, from: nat): (i: nat)
    requires 1 <= from <= |p|
    ensures from <= i <= |p|
    ensures forall k | from - 1 <= k < i - 1 :: (p[k], p[k + 1]) in f
    ensures i < |p| ==> (p[i - 1], p[i]) !in f
    decreases |p| - from
  {
    if from == |p| || (p[from - 1], p[from]) !in f then from else FirstBreak(f, p, from + 1)
  }

  lemma SymbolLocalIsWord(v: char, k: int, p: seq<int>)
    requires Local(Symbol(v, k), p)
    ensures PositionWord(Symbol(v, k), p)
  {
    ChainedHead(Follow(Symbol(v, k)), p);
  }

  /** In an alternation of operands with disjoint positions, a local
      sequence that starts in one operand stays in it. */
  lemma AltSide(a: Node, b: Node, p: seq<int>)
    requires Pos(a).Keys !! Pos(b).Keys
    requires |p| > 0 && p[0] in First(a) && Local(Alt(a, b), p)
    ensures Local(a, p)
  {
    var f := Follow(Alt(a, b));
    var keys := Pos(a).Keys;
    assert Closed(f, keys) by {
      forall q | q in f && q.0 in keys ensures q.1 in keys {
        assert q in Follow(b) ==> q.0 in Pos(b).Keys;
      }
    }
    ChainStays(f, keys, p, 0);
    forall k | 0 <= k < |p| - 1 ensures (p[k], p[k + 1]) in Follow(a) {
      assert (p[k], p[k + 1]) in f;
      assert p[k] in keys;
    }
    var last := p[|p| - 1];
    assert last in keys;
    assert last in Last(b) ==> last in Pos(b).Keys;
  }

  lemma {:induction false} AltLocalIsWord(l: Node, r: Node, p: seq<int>)
    requires Linear(Alt(l, r)) && Local(Alt(l, r), p)
    ensures PositionWord(Alt(l, r), p)
    decreases Alt(l, r), |p|, 0
  {
    if |p| == 0 {
      if Nullable(l) {
        LocalIsPositionWord(l, p);
      } else {
        LocalIsPositionWord(r, p);
      }
    } else if p[0] in First(l) {
      AltSide(l, r, p);
      LocalIsPositionWord(l, p);
    } else {
      AltSymmetric(l, r, p);
      AltSide(r, l, p);
      LocalIsPositionWord(r, p);
    }
  }

  lemma {:induction false} StarLocalIsWord(c: Node, p: seq<int>)
    requires Linear(c) && Local(Star(c), p)
    ensures PositionWord(Star(c), p)
    decreases Star(c), |p|, 0
  {
    if |p| > 0 {
      var i := FirstBreak(Follow(c), p, 1);
      StarPieces(c, p, i);
      LocalIsPositionWord(c, p[..i]);
      LocalIsPositionWord(Star(c), p[i..]);
    }
  }

  /** Cutting a local sequence of c* where it first leaves `follow` of c:
      the head is a local sequence of c, the rest one of c*. */
  lemma StarPieces(c: Node, p: seq<int>, i: nat)
    requires |p| > 0 && Local(Star(c), p) && i == FirstBreak(Follow(c), p, 1)
    ensures Local(c, p[..i]) && Local(Star(c), p[i..])
  {
    StarHead(c, p, i);
    StarRest(c, p, i);
  }

  /** A break in the child's follow relation inside a star is a
      `last`-to-`first` step. */
  lemma StarBreak(c: Node, x: int, y: int)
    requires (x, y) in Follow(Star(c)) && (x, y) !in Follow(c)
    ensures x in Last(c) && y in First(c)
  {
  }

  lemma StarHead(c: Node, p: seq<int>, i: nat)
    requires |p| > 0 && Local(Star(c), p) && i == FirstBreak(Follow(c), p, 1)
    ensures Local(c, p[..i])
  {
    var a := p[..i];
    ChainedPrefix(Follow(c), p, i);
    assert a[0] == p[0] && a[|a| - 1] == p[i - 1];
    if i < |p| {
      var j := i - 1;
      assert (p[j], p[j + 1]) in Follow(Star(c));
      StarBreak(c, p[j], p[j + 1]);
    }
  }

  lemma ChainedPrefix(f: set<(int, int)>, p: seq<int>, i: nat)
    requires i <= |p|
    requires forall k | 0 <= k < i - 1 :: (p[k], p[k + 1]) in f
    ensures Chained(f, p[..i])
  {
    var a := p[..i];
    forall k | 0 <= k < |a| - 1 ensures (a[k], a[k + 1]) in f {
      assert a[k] == p[k] && a[k + 1] == p[k + 1];
    }
  }

  lemma StarRest(c: Node, p: seq<int>, i: nat)
    requires |p| > 0 && Local(Star(c), p) && i == FirstBreak(Follow(c), p, 1)
    ensures Local(Star(c), p[i..])
  {
    if i < |p| {
      var j := i - 1;
      assert (p[j], p[j + 1]) in Follow(Star(c));
      StarBreak(c, p[j], p[j + 1]);
      assert p[i..][0] == p[i] && p[i..][|p[i..]| - 1] == p[|p| - 1];
    }
    ChainedSlice(Follow(Star(c)), p, i, |p|);
  }

  lemma {:induction false} ConcatLocalIsWord(l: Node, r: Node, p: seq<int>)
    requires Linear(Concat(l, r)) && Local(Concat(l, r), p)
    ensures PositionWord(Concat(l, r), p)
    decreases Concat(l, r), |p|, 0
  {
    var i := FirstIn(p, Pos(r).Keys, 0);
    ConcatPieces(l, r, p, i);
    LocalIsPositionWord(l, p[..i]);
    LocalIsPositionWord(r, p[i..]);
  }

  /** Cutting a local sequence of l r where it first enters the positions
      of r: the head is a local sequence of l, the rest one of r. */
  lemma ConcatPieces(l: Node, r: Node, p: seq<int>, i: nat)
    requires Linear(Concat(l, r)) && Local(Concat(l, r), p) && i == FirstIn(p, Pos(r).Keys, 0)
    ensures Local(l, p[..i]) && Local(r, p[i..])
  {
    if |p| > 0 {
      var n := Concat(l, r);
      LocalKeys(n, p);
      assert forall k | 0 <= k < i :: p[k] in Pos(l).Keys;
      if i < |p| {
        assert Closed(Follow(n), Pos(r).Keys) by {
          forall q | q in Follow(n) && q.0 in Pos(r).Keys ensures q.1 in Pos(r).Keys {
            assert q in Follow(l) ==> q.0 in Pos(l).Keys;
            assert q in Pairs(Last(l), First(r)) ==> q.0 in Pos(l).Keys;
          }
        }
        ChainStays(Follow(n), Pos(r).Keys, p, i);
      }
      ConcatHead(l, r, p, i);
      ConcatTail(l, r, p, i);
    }
  }

  lemma ConcatHead(l: Node, r: Node, p: seq<int>, i: nat)
    requires Linear(Concat(l, r)) && Local(Concat(l, r), p) && 0 < |p| && i <= |p|
    requires forall k | 0 <= k < i :: p[k] in Pos(l).Keys
    requires forall k | i <= k < |p| :: p[k] in Pos(r).Keys
    ensures Local(l, p[..i])
  {
    var a := p[..i];
    if i == 0 {
      assert p[0] in Pos(r).Keys;
      assert p[0] !in First(l);
    } else {
      assert p[0] !in First(r);
      forall k | 0 <= k < |a| - 1 ensures (a[k], a[k + 1]) in Follow(l) {
        assert a[k] == p[k] && a[k + 1] == p[k + 1];
        assert (p[k], p[k + 1]) in Follow(Concat(l, r));
        assert p[k + 1] !in First(r);
        assert p[k] !in Pos(r).Keys;
      }
      var j := i - 1;
      if i < |p| {
        assert (p[j], p[j + 1]) in Follow(Concat(l, r));
        assert p[j + 1] !in Pos(l).Keys;
        assert p[j] !in Pos(r).Keys;
        assert (p[j], p[j + 1]) in Pairs(Last(l), First(r));
      } else {
        assert p[j] !in Last(r);
      }
    }
  }

  lemma ConcatTail(l: Node, r: Node, p: seq<int>, i: nat)
    requires Linear(Concat(l, r)) && Local(Concat(l, r), p) && 0 < |p| && i <= |p|
    requires forall k | 0 <= k < i :: p[k] in Pos(l).Keys
    requires forall k | i <= k < |p| :: p[k] in Pos(r).Keys
    ensures Local(r, p[i..])
  {
    if i == |p| {
      var j := i - 1;
      assert p[j] !in Last(r);
    } else {
      ConcatTailStart(l, r, p, i);
      ConcatTailChain(l, r, p, i);
      assert p[i..][|p[i..]| - 1] == p[|p| - 1];
      assert p[|p| - 1] !in Last(l);
    }
  }

  lemma ConcatTailStart(l: Node, r: Node, p: seq<int>, i: nat)
    requires Linear(Concat(l, r)) && Local(Concat(l, r), p) && i < |p|
    requires forall k | 0 <= k < i :: p[k] in Pos(l).Keys
    requires p[i] in Pos(r).Keys
    ensures p[i] in First(r)
  {
    if i == 0 {
      assert p[0] !in First(l);
    } else {
      var j := i - 1;
      assert (p[j], p[j + 1]) in Follow(Concat(l, r));
      assert p[j + 1] !in Pos(l).Keys;
      assert p[j] !in Pos(r).Keys;
      assert (p[j], p[j + 1]) in Pairs(Last(l), First(r));
    }
  }

  lemma ConcatTailChain(l: Node, r: Node, p: seq<int>, i: nat)
    requires Linear(Concat(l, r)) && Local(Concat(l, r), p) && i < |p|
    requires forall k | i <= k < |p| :: p[k] in Pos(r).Keys
    ensures Chained(Follow(r), p[i..])
  {
    var b := p[i..];
    forall k | 0 <= k < |b| - 1 ensures (b[k], b[k + 1]) in Follow(r) {
      var m := i + k;
      assert b[k] == p[m] && b[k + 1] == p[m + 1];
      assert (p[m], p[m + 1]) in Follow(Concat(l, r));
      assert p[m] !in Pos(l).Keys;
    }
  }

  /** Completeness of the attributes for a linear tree: every local
      sequence is a position word. */
  lemma {:induction false} LocalIsPositionWord(n: Node, p: seq<int>)
    requires Linear(n) && Local(n, p)
    ensures PositionWord(n, p)
    decreases n, |p|, 1
  {
    match n
    case Symbol(v, k) => SymbolLocalIsWord(v, k, p);
    case Star(c) => StarLocalIsWord(c, p);
    case Concat(l, r) => ConcatLocalIsWord(l, r, p);
    case Alt(l, r) => AltLocalIsWord(l, r, p);
  }

  /** Glushkov's theorem: for a linear tree the position words are exactly
      the sequences that are empty when the tree is nullable, or start in
      `first`, end in `last` and step along `follow`. */
  lemma Glushkov(n: Node, p: seq<int>)
    requires Linear(n)
    ensures PositionWord(n, p) <==> Local(n, p)
  {
    if PositionWord(n, p) {
      PositionWordIsLocal(n, p);
    }
    if Local(n, p) {
      LocalIsPositionWord(n, p);
    }
  }

  // ----- From positions to characters -----

  /** Every entry of m1 is also an entry of m2. */
  predicate Agrees(m1: map<int, char>, m2: map<int, char>) {
    forall x | x in m1 :: x in m2 && m2[x] == m1[x]
  }

  /** With disjoint operands the union of the position maps extends both. */
  lemma OperandsAgree(l: Node, r: Node)
    requires Pos(l).Keys !! Pos(r).Keys
    ensures Agrees(Pos(l), Pos(l) + Pos(r)) && Agrees(Pos(r), Pos(l) + Pos(r))
  {
  }

  lemma SpellsWider(m1: map<int, char>, m2: map<int, char>, p: seq<int>, w: seq<char>)
    requires Agrees(m1, m2) && Spells(m1, p, w)
    ensures Spells(m2, p, w)
  {
    forall k | 0 <= k < |p| ensures p[k] in m2 && m2[p[k]] == w[k] {
      var x := p[k];
      assert x in m1;
    }
  }

  lemma SpellsNarrower(m1: map<int, char>, m2: map<int, char>, p: seq<int>, w: seq<char>)
    requires Agrees(m1, m2) && Spells(m2, p, w)
    requires forall k | 0 <= k < |p| :: p[k] in m1
    ensures Spells(m1, p, w)
  {
    forall k | 0 <= k < |p| ensures p[k] in m1 && m1[p[k]] == w[k] {
      var x := p[k];
      assert x in m1;
    }
  }

  lemma SpellsSplit(m: map<int, char>, p: seq<int>, w: seq<char>, i: nat)
    requires Spells(m, p, w) && i <= |p|
    ensures Spells(m, p[..i], w[..i]) && Spells(m, p[i..], w[i..])
  {
    forall k | 0 <= k < |p| - i ensures p[i..][k] in m && m[p[i..][k]] == w[i..][k] {
      assert p[i..][k] == p[i + k] && w[i..][k] == w[i + k];
    }
  }

  lemma SpellsJoin(m: map<int, char>, a: seq<int>, b: seq<int>, u: seq<char>, v: seq<char>)
    requires Spells(m, a, u) && Spells(m, b, v)
    ensures Spells(m, a + b, u + v)
  {
    forall k | 0 <= k < |a + b| ensures (a + b)[k] in m && m[(a + b)[k]] == (u + v)[k] {
      if k < |a| {
        assert (a + b)[k] == a[k] && (u + v)[k] == u[k];
      } else {
        assert (a + b)[k] == b[k - |a|] && (u + v)[k] == v[k - |a|];
      }
    }
  }

  /** Every position of a position word is a position of the tree. */
  lemma PositionWordKeys(n: Node, p: seq<int>)
    requires PositionWord(n, p)
    ensures forall k | 0 <= k < |p| :: p[k] in Pos(n)
  {
    PositionWordIsLocal(n, p);
    LocalKeys(n, p);
  }

  /** A position word of the operand l, spelled under the whole tree's
      map, is spelled under l's own map. */
  lemma SpellsOperand(l: Node, m: map<int, char>, p: seq<int>, w: seq<char>)
    requires Agrees(Pos(l), m) && PositionWord(l, p) && Spells(m, p, w)
    ensures Spells(Pos(l), p, w)
  {
    PositionWordKeys(l, p);
    SpellsNarrower(Pos(l), m, p, w);
  }

  /** Labelling a position word of a linear tree with its characters gives
      a word of the tree's language. */
  lemma {:induction false} SpelledWordMatches(n: Node, p: seq<int>, w: seq<char>)
    requires Linear(n) && PositionWord(n, p) && Spells(Pos(n), p, w)
    ensures Matches(n, w)
    decreases n, |p|
  {
    match n
    case Symbol(v, k) =>
      assert p == [k] && w == [w[0]];
    case Star(c) =>
      if |p| > 0 {
        var i :| 0 < i <= |p| && PositionWord(c, p[..i]) && PositionWord(n, p[i..]);
        SpellsSplit(Pos(n), p, w, i);
        SpelledWordMatches(c, p[..i], w[..i]);
        SpelledWordMatches(n, p[i..], w[i..]);
      }
    case Concat(l, r) =>
      var i :| 0 <= i <= |p| && PositionWord(l, p[..i]) && PositionWord(r, p[i..]);
      SpellsSplit(Pos(n), p, w, i);
      OperandsAgree(l, r);
      SpellsOperand(l, Pos(n), p[..i], w[..i]);
      SpellsOperand(r, Pos(n), p[i..], w[i..]);
      SpelledWordMatches(l, p[..i], w[..i]);
      SpelledWordMatches(r, p[i..], w[i..]);
    case Alt(l, r) =>
      OperandsAgree(l, r);
      if PositionWord(l, p) {
        SpellsOperand(l, Pos(n), p, w);
        SpelledWordMatches(l, p, w);
      } else {
        SpellsOperand(r, Pos(n), p, w);
        SpelledWordMatches(r, p, w);
      }
  }

  /** Every word of the language of a linear tree is spelled by one of its
      position words. */
  lemma {:induction false} MatchSpelled(n: Node, w: seq<char>) returns (p: seq<int>)
    requires Linear(n) && Matches(n, w)
    ensures PositionWord(n, p) && Spells(Pos(n), p, w)
    decreases n, |w|
  {
    match n
    case Symbol(v, k) =>
      p := [k];
    case Star(c) =>
      if |w| == 0 {
        p := [];
      } else {
        var i :| 0 < i <= |w| && Matches(c, w[..i]) && Matches(n, w[i..]);
        var a := MatchSpelled(c, w[..i]);
        var b := MatchSpelled(n, w[i..]);
        p := a + b;
        SpellsJoin(Pos(n), a, b, w[..i], w[i..]);
        assert w[..i] + w[i..] == w;
        assert p[..i] == a && p[i..] == b;
      }
    case Concat(l, r) =>
      var i :| 0 <= i <= |w| && Matches(l, w[..i]) && Matches(r, w[i..]);
      var a := MatchSpelled(l, w[..i]);
      var b := MatchSpelled(r, w[i..]);
      OperandsAgree(l, r);
      SpellsWider(Pos(l), Pos(n), a, w[..i]);
      SpellsWider(Pos(r), Pos(n), b, w[i..]);
      p := a + b;
      SpellsJoin(Pos(n), a, b, w[..i], w[i..]);
      assert w[..i] + w[i..] == w;
      assert p[..i] == a && p[i..] == b;
    case Alt(l, r) =>
      OperandsAgree(l, r);
      if Matches(l, w) {
        p := MatchSpelled(l, w);
        SpellsWider(Pos(l), Pos(n), p, w);
      } else {
        p := MatchSpelled(r, w);
        SpellsWider(Pos(r), Pos(n), p, w);
      }
  }

  /** The language of a linear tree, read off its attributes: w matches
      exactly when some sequence of positions that is empty for a nullable
      tree, or starts in `first`, ends in `last` and steps along `follow`,
      spells w. */
  lemma MatchesIffLocal(n: Node, w: seq<char>)
    requires Linear(n)
    ensures Matches(n, w) <==> exists p :: Local(n, p) && Spells(Pos(n), p, w)
  {
    if Matches(n, w) {
      var p := MatchSpelled(n, w);
      Glushkov(n, p);
    }
    if exists p :: Local(n, p) && Spells(Pos(n), p, w) {
      var p :| Local(n, p) && Spells(Pos(n), p, w);
      Glushkov(n, p);
      SpelledWordMatches(n, p, w);
    }
  }
}
