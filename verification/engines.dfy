/** The automaton constructions built from a syntax tree's Glushkov
    attributes, and the proofs that they all accept the same words.

    Each construction reads the same four attributes off the tree: the
    position map, `first`, `last0` and `follow`. Position 0 is the
    synthetic state "before any symbol"; its successors are `first`.

      - Position: a nondeterministic automaton over positions.
      - Deterministic position: its subset construction.
      - McNaughton-Yamada: sets of positions, closing under `follow`
        before selecting by symbol.
      - Follow: positions collapsed to (follow set, finality) records,
        nondeterministic, and its subset construction.
      - Mark-before: one (follow set, finality) record per state, with
        finality taken from the selected positions before closing.
 */
module Engines {
  import opened Tree
  import opened Automaton

  /** The attributes an automaton copies from its syntax tree. */
  datatype Attrs = Attrs(pos: map<int, char>, first: set<int>, last0: set<int>, follow: set<(int, int)>)

  /** Every position the attributes mention is a key of the position map. */
  predicate WellFormed(g: Attrs) {
    && g.first <= g.pos.Keys
    && g.last0 - {0} <= g.pos.Keys
    && forall p | p in g.follow :: p.0 in g.pos.Keys && p.1 in g.pos.Keys
  }

  /** Attributes in which 0 is not a position, so that 0 is never
      re-entered once left. Attributes of a parsed pattern qualify. */
  predicate ZeroFree(g: Attrs) {
    WellFormed(g) && 0 !in g.pos
  }

  function FromNode(n: Node): (g: Attrs)
    ensures WellFormed(g)
    ensures g.pos.Keys != {}
  {
    Attrs(Pos(n), First(n), Last0(n), Tree.Follow(n))
  }

  /** The alphabet: the characters of the pattern. */
  function Symbols(g: Attrs): set<char> {
    g.pos.Values
  }

  /** The positions that may come right after i; after 0 that is `first`. */
  function FollowI(g: Attrs, i: int): (r: set<int>)
    ensures i == 0 ==> r == g.first
    ensures i != 0 ==> forall j :: j in r <==> (i, j) in g.follow
    ensures WellFormed(g) ==> r <= g.pos.Keys
  {
    if i == 0 then g.first else set p | p in g.follow && p.0 == i :: p.1
  }

  /** The union of `FollowI` over a set of positions. */
  function FollowSet(g: Attrs, s: set<int>): (r: set<int>)
    ensures forall j :: j in r <==> exists i :: i in s && j in FollowI(g, i)
    ensures forall i | i in s :: FollowI(g, i) <= r
    ensures WellFormed(g) ==> r <= g.pos.Keys
  {
    set i, j | i in s && j in FollowI(g, i) :: j
  }

  /** The positions of s that carry the character c. */
  function Select(g: Attrs, s: set<int>, c: char): (r: set<int>)
    ensures r <= s
    ensures forall i :: i in r <==> i in s && i in g.pos && g.pos[i] == c
  {
    set i | i in s && i in g.pos && g.pos[i] == c
  }

  /** With well-formed attributes every follow set holds only keys of the
      position map, so the selection never meets a position it cannot
      look up. */
  lemma SelectSeesOnlyKeys(g: Attrs, s: set<int>, c: char)
    requires WellFormed(g)
    ensures FollowSet(g, s) <= g.pos.Keys
    ensures Select(g, FollowSet(g, s), c) == set i | i in FollowSet(g, s) && g.pos[i] == c
  {
  }

  // ----- Position automaton -----

  /** From position i on c: the successors of i that carry c. */
  function PositionTransition(g: Attrs, i: int, c: char): (r: set<int>)
    ensures i == 0 ==> forall j :: j in r <==> j in g.first && j in g.pos && g.pos[j] == c
    ensures i != 0 ==> forall j :: j in r <==> (i, j) in g.follow && j in g.pos && g.pos[j] == c
  {
    Select(g, FollowI(g, i), c)
  }

  /** The frontier after one more symbol: the union of the transitions of
      its members. This is also the transition of the deterministic
      position automaton. */
  function PositionStep(g: Attrs, s: set<int>, c: char): (r: set<int>)
    ensures forall j :: j in r <==> exists i :: i in s && j in PositionTransition(g, i, c)
    ensures forall j | j in r :: j in g.pos && g.pos[j] == c
  {
    set i, j | i in s && j in PositionTransition(g, i, c) :: j
  }

  function PositionDelta(g: Attrs): (set<int>, char) -> set<int> {
    (s: set<int>, c: char) => PositionStep(g, s, c)
  }

  /** The frontier of the position automaton after w, from {0}. */
  function PositionAfter(g: Attrs, w: seq<char>): set<int> {
    Run({0}, PositionDelta(g), w)
  }

  /** The position automaton accepts when the frontier meets `last0`. */
  predicate PositionFinal(g: Attrs, s: set<int>) {
    s * g.last0 != {}
  }

  /** Every position in the frontier after a non-empty word carries the
      word's last character: a transition only ever enters positions
      labelled with the symbol just read. */
  lemma PositionHomogeneous(g: Attrs, w: seq<char>)
    requires |w| > 0
    ensures forall i | i in PositionAfter(g, w) :: i in g.pos && g.pos[i] == w[|w| - 1]
  {
  }

  /** Starting from more positions reaches at least the same positions. */
  lemma {:induction false} PositionRunMonotone(g: Attrs, s: set<int>, t: set<int>, v: seq<char>)
    requires s <= t
    ensures Run(s, PositionDelta(g), v) <= Run(t, PositionDelta(g), v)
    decreases |v|
  {
    if |v| > 0 {
      var u := v[..|v| - 1];
      PositionRunMonotone(g, s, t, u);
    }
  }

  /** Every position reached from a set is reached from one of its
      members alone: the frontier is the union of the members' frontiers. */
  lemma {:induction false} PositionRunSplit(g: Attrs, s: set<int>, v: seq<char>, j: int)
    requires j in Run(s, PositionDelta(g), v)
    ensures exists i :: i in s && j in Run({i}, PositionDelta(g), v)
    decreases |v|
  {
    if |v| == 0 {
      assert j in s && j in Run({j}, PositionDelta(g), v);
    } else {
      var u := v[..|v| - 1];
      var c := v[|v| - 1];
      var k :| k in Run(s, PositionDelta(g), u) && j in PositionTransition(g, k, c);
      PositionRunSplit(g, s, u, k);
      var i :| i in s && k in Run({i}, PositionDelta(g), u);
      assert j in Run({i}, PositionDelta(g), v);
    }
  }

  lemma PositionDeadStaysDead(g: Attrs)
    ensures DeadStaysDead(PositionDelta(g), (s: set<int>) => |s|, (s: set<int>) => PositionFinal(g, s))
  {
  }

  method PositionAccepts(g: Attrs, w: seq<char>) returns (accepted: bool)
    ensures accepted <==> PositionAfter(g, w) * g.last0 != {}
  {
    PositionDeadStaysDead(g);
    accepted := Accepts({0}, PositionDelta(g), (s: set<int>) => |s|, (s: set<int>) => PositionFinal(g, s), w);
  }

  /** Some element of a non-empty set. */
  lemma Pick<T>(s: set<T>) returns (x: T)
    requires s != {}
    ensures x in s
  {
    x :| x in s;
  }

  /** Largest element of a non-empty set. */
  function Max(s: set<int>): (r: int)
    requires s != {}
    ensures r in s && forall x | x in s :: x <= r
  {
    MaxExists(s);
    var m :| m in s && forall x | x in s :: x <= m;
    m
  }

  lemma {:induction false} MaxExists(s: set<int>)
    requires s != {}
    ensures exists m :: m in s && forall x | x in s :: x <= m
    decreases s
  {
    var e := Pick(s);
    var rest := s - {e};
    if rest != {} {
      MaxExists(rest);
      var m :| m in rest && forall x | x in rest :: x <= m;
      var top := if e > m then e else m;
      forall x | x in s ensures x <= top {
        if x != e {
          assert x in rest;
        }
      }
      assert top in s;
    } else {
      forall x | x in s ensures x <= e {
        assert x !in rest;
      }
    }
  }

  /** The position automaton's state count is the largest position; the
      synthetic state 0 is not counted. */
  function PositionCount(g: Attrs): (r: int)
    requires g.pos.Keys != {}
    ensures r in g.pos.Keys && forall k | k in g.pos.Keys :: k <= r
  {
    Max(g.pos.Keys)
  }

  // ----- Deterministic position automaton -----

  /** The deterministic position automaton accepts when some member of its
      state is in `last0`. */
  predicate SomeFinal(g: Attrs, s: set<int>) {
    exists i :: i in s && i in g.last0
  }

  method DeterministicPositionAccepts(g: Attrs, w: seq<char>) returns (accepted: bool)
    ensures accepted <==> exists i :: i in PositionAfter(g, w) && i in g.last0
  {
    PositionDeadStaysDead(g);
    assert DeadStaysDead(PositionDelta(g), (s: set<int>) => |s|, (s: set<int>) => SomeFinal(g, s));
    accepted := Accepts({0}, PositionDelta(g), (s: set<int>) => |s|, (s: set<int>) => SomeFinal(g, s), w);
  }

  /** The candidate states of the subset constructions over positions. */
  ghost function PositionSubsets(g: Attrs): set<set<int>> {
    PowerSet(g.pos.Keys + {0})
  }

  method DeterministicPositionStates(g: Attrs) returns (states: set<set<int>>, count: nat)
    ensures count == |states|
    ensures {0} in states
    ensures forall s | s in states :: s <= g.pos.Keys + {0}
    ensures forall s | s in states && s != {0} :: s != {}
    ensures forall s, c | s in states && c in Symbols(g) && PositionStep(g, s, c) != {} :: PositionStep(g, s, c) in states
    ensures forall s | s in states :: exists w :: Over(w, Symbols(g)) && PositionAfter(g, w) == s
  {
    forall s, c | s in PositionSubsets(g) && c in Symbols(g)
      ensures PositionDelta(g)(s, c) in PositionSubsets(g)
    {
      assert PositionStep(g, s, c) <= g.pos.Keys + {0};
    }
    states := AllStates({0}, PositionDelta(g), (s: set<int>) => |s|, Symbols(g), PositionSubsets(g));
    count := |states|;
    forall s, c | s in states && c in Symbols(g) && PositionStep(g, s, c) != {}
      ensures PositionStep(g, s, c) in states
    {
      assert |PositionDelta(g)(s, c)| != 0;
    }
    forall s | s in states ensures exists w :: Over(w, Symbols(g)) && PositionAfter(g, w) == s {
      var w :| Over(w, Symbols(g)) && Run({0}, PositionDelta(g), w) == s;
      assert PositionAfter(g, w) == s;
    }
  }

  // ----- McNaughton-Yamada automaton -----

  /** Close the state under `follow` first, then select by symbol. */
  function McNaughtonYamadaStep(g: Attrs, s: set<int>, c: char): (r: set<int>)
    ensures forall j :: j in r <==> j in g.pos && g.pos[j] == c && exists i :: i in s && j in FollowI(g, i)
    ensures r == PositionStep(g, s, c)
  {
    Select(g, FollowSet(g, s), c)
  }

  function McNaughtonYamadaDelta(g: Attrs): (set<int>, char) -> set<int> {
    (s: set<int>, c: char) => McNaughtonYamadaStep(g, s, c)
  }

  function McNaughtonYamadaAfter(g: Attrs, w: seq<char>): set<int> {
    Run({0}, McNaughtonYamadaDelta(g), w)
  }

  /** Selecting by symbol distributes over the union that forms a follow
      set, so closing first and selecting afterwards gives the same set as
      the position automaton's union of per-position transitions. */
  lemma McNaughtonYamadaStepIsPositionStep(g: Attrs, s: set<int>, c: char)
    ensures McNaughtonYamadaStep(g, s, c) == PositionStep(g, s, c)
  {
    forall j ensures j in McNaughtonYamadaStep(g, s, c) <==> j in PositionStep(g, s, c) {
      if j in McNaughtonYamadaStep(g, s, c) {
        var i :| i in s && j in FollowI(g, i);
        assert j in PositionTransition(g, i, c);
      }
    }
  }

  /** The McNaughton-Yamada state after w is the position automaton's
      frontier after w. */
  lemma {:induction false} McNaughtonYamadaIsPosition(g: Attrs, w: seq<char>)
    ensures McNaughtonYamadaAfter(g, w) == PositionAfter(g, w)
    decreases |w|
  {
    if |w| > 0 {
      var u := w[..|w| - 1];
      McNaughtonYamadaIsPosition(g, u);
      McNaughtonYamadaStepIsPositionStep(g, PositionAfter(g, u), w[|w| - 1]);
    }
  }

  method McNaughtonYamadaAccepts(g: Attrs, w: seq<char>) returns (accepted: bool)
    ensures accepted <==> exists i :: i in McNaughtonYamadaAfter(g, w) && i in g.last0
  {
    assert DeadStaysDead(McNaughtonYamadaDelta(g), (s: set<int>) => |s|, (s: set<int>) => SomeFinal(g, s));
    accepted := Accepts({0}, McNaughtonYamadaDelta(g), (s: set<int>) => |s|, (s: set<int>) => SomeFinal(g, s), w);
  }

  method McNaughtonYamadaStates(g: Attrs) returns (states: set<set<int>>, count: nat)
    ensures count == |states|
    ensures {0} in states
    ensures forall s | s in states :: s <= g.pos.Keys + {0}
    ensures forall s | s in states && s != {0} :: s != {}
    ensures forall s, c | s in states && c in Symbols(g) && McNaughtonYamadaStep(g, s, c) != {}
              :: McNaughtonYamadaStep(g, s, c) in states
    ensures forall s | s in states :: exists w :: Over(w, Symbols(g)) && McNaughtonYamadaAfter(g, w) == s
  {
    forall s, c | s in PositionSubsets(g) && c in Symbols(g)
      ensures McNaughtonYamadaDelta(g)(s, c) in PositionSubsets(g)
    {
      assert McNaughtonYamadaStep(g, s, c) <= g.pos.Keys + {0};
    }
    states := AllStates({0}, McNaughtonYamadaDelta(g), (s: set<int>) => |s|, Symbols(g), PositionSubsets(g));
    count := |states|;
    forall s, c | s in states && c in Symbols(g) && McNaughtonYamadaStep(g, s, c) != {}
      ensures McNaughtonYamadaStep(g, s, c) in states
    {
      assert |McNaughtonYamadaDelta(g)(s, c)| != 0;
    }
    forall s | s in states ensures exists w :: Over(w, Symbols(g)) && McNaughtonYamadaAfter(g, w) == s {
      var w :| Over(w, Symbols(g)) && Run({0}, McNaughtonYamadaDelta(g), w) == s;
      assert McNaughtonYamadaAfter(g, w) == s;
    }
  }

  // ----- Follow automaton -----

  /** A state of the follow and mark-before automata. Two positions with
      the same follow set and finality are the same state. */
  datatype FollowState = FollowState(follow: set<int>, final: bool)

  function FollowStateOf(g: Attrs, i: int): (q: FollowState)
    ensures i == 0 ==> q.follow == g.first
    ensures i != 0 ==> forall j :: j in q.follow <==> (i, j) in g.follow
    ensures q.final <==> i in g.last0
  {
    FollowState(FollowI(g, i), i in g.last0)
  }

  /** From one follow state on c: the follow states of the positions in its
      follow set that carry c. */
  function FollowTransition(g: Attrs, q: FollowState, c: char): (r: set<FollowState>)
    ensures forall t :: t in r <==> exists j :: j in q.follow && j in g.pos && g.pos[j] == c && t == FollowStateOf(g, j)
  {
    set j | j in Select(g, q.follow, c) :: FollowStateOf(g, j)
  }

  /** The follow automaton's frontier after one more symbol; also the
      transition of its subset construction. */
  function FollowStep(g: Attrs, f: set<FollowState>, c: char): (r: set<FollowState>)
    ensures forall t :: t in r <==> exists q :: q in f && t in FollowTransition(g, q, c)
  {
    set q, t | q in f && t in FollowTransition(g, q, c) :: t
  }

  function FollowDelta(g: Attrs): (set<FollowState>, char) -> set<FollowState> {
    (f: set<FollowState>, c: char) => FollowStep(g, f, c)
  }

  function FollowAfter(g: Attrs, w: seq<char>): set<FollowState> {
    Run({FollowStateOf(g, 0)}, FollowDelta(g), w)
  }

  predicate AnyFinal(f: set<FollowState>) {
    exists q :: q in f && q.final
  }

  /** The follow states of a set of positions. */
  function Image(g: Attrs, s: set<int>): (r: set<FollowState>)
    ensures forall q :: q in r <==> exists i :: i in s && q == FollowStateOf(g, i)
  {
    set i | i in s :: FollowStateOf(g, i)
  }

  /** One step of the follow automaton from the image of a frontier is the
      image of the position automaton's step. */
  lemma FollowStepIsImage(g: Attrs, s: set<int>, c: char)
    ensures FollowStep(g, Image(g, s), c) == Image(g, PositionStep(g, s, c))
  {
    forall t ensures t in FollowStep(g, Image(g, s), c) <==> t in Image(g, PositionStep(g, s, c)) {
      if t in FollowStep(g, Image(g, s), c) {
        var q :| q in Image(g, s) && t in FollowTransition(g, q, c);
        var i :| i in s && q == FollowStateOf(g, i);
        var j :| j in Select(g, q.follow, c) && t == FollowStateOf(g, j);
        assert j in PositionTransition(g, i, c);
      }
      if t in Image(g, PositionStep(g, s, c)) {
        var j :| j in PositionStep(g, s, c) && t == FollowStateOf(g, j);
        var i :| i in s && j in PositionTransition(g, i, c);
        assert FollowStateOf(g, i) in Image(g, s);
        assert t in FollowTransition(g, FollowStateOf(g, i), c);
      }
    }
  }

  /** The follow automaton's frontier after w is the image of the position
      automaton's frontier after w. */
  lemma {:induction false} FollowIsImageOfPosition(g: Attrs, w: seq<char>)
    ensures FollowAfter(g, w) == Image(g, PositionAfter(g, w))
    decreases |w|
  {
    if |w| == 0 {
      assert Image(g, {0}) == {FollowStateOf(g, 0)};
    } else {
      var u := w[..|w| - 1];
      FollowIsImageOfPosition(g, u);
      FollowStepIsImage(g, PositionAfter(g, u), w[|w| - 1]);
    }
  }

  /** The image holds a final follow state exactly when the frontier meets
      `last0`. */
  lemma ImageFinal(g: Attrs, s: set<int>)
    ensures AnyFinal(Image(g, s)) <==> s * g.last0 != {}
  {
    if s * g.last0 != {} {
      var i := Pick(s * g.last0);
      assert FollowStateOf(g, i) in Image(g, s);
    }
    if AnyFinal(Image(g, s)) {
      var q :| q in Image(g, s) && q.final;
      var i :| i in s && q == FollowStateOf(g, i);
      assert i in s * g.last0;
    }
  }

  lemma FollowDeadStaysDead(g: Attrs)
    ensures DeadStaysDead(FollowDelta(g), (f: set<FollowState>) => |f|, (f: set<FollowState>) => AnyFinal(f))
  {
  }

  method FollowAccepts(g: Attrs, w: seq<char>) returns (accepted: bool)
    ensures accepted <==> exists q :: q in FollowAfter(g, w) && q.final
  {
    FollowDeadStaysDead(g);
    accepted := Accepts({FollowStateOf(g, 0)}, FollowDelta(g), (f: set<FollowState>) => |f|,
                        (f: set<FollowState>) => AnyFinal(f), w);
  }

  /** The follow automaton's states: the follow states of 0 and of every
      position, duplicates merged. */
  function FollowStates(g: Attrs): (r: set<FollowState>)
    ensures FollowStateOf(g, 0) in r
    ensures forall i | i in g.pos :: FollowStateOf(g, i) in r
    ensures forall q | q in r :: exists i :: (i == 0 || i in g.pos) && q == FollowStateOf(g, i)
    ensures WellFormed(g) ==> forall q, c | q in r :: FollowTransition(g, q, c) <= r
  {
    Image(g, {0} + g.pos.Keys)
  }

  /** Collapsing positions can only shrink the count: at most one state
      per position plus one for 0. */
  function FollowCount(g: Attrs): (r: nat)
    ensures r <= |g.pos| + 1
  {
    ImageSize(g, {0} + g.pos.Keys);
    assert |{0} + g.pos.Keys| <= |g.pos.Keys| + 1;
    |FollowStates(g)|
  }

  lemma {:induction false} ImageSize(g: Attrs, s: set<int>)
    ensures |Image(g, s)| <= |s|
    decreases s
  {
    if s != {} {
      var i := Pick(s);
      ImageSize(g, s - {i});
      assert Image(g, s) == Image(g, s - {i}) + {FollowStateOf(g, i)};
    }
  }

  // ----- Deterministic follow automaton -----

  method DeterministicFollowAccepts(g: Attrs, w: seq<char>) returns (accepted: bool)
    ensures accepted <==> exists q :: q in FollowAfter(g, w) && q.final
  {
    FollowDeadStaysDead(g);
    accepted := Accepts({FollowStateOf(g, 0)}, FollowDelta(g), (f: set<FollowState>) => |f|,
                        (f: set<FollowState>) => AnyFinal(f), w);
  }

  /** Every state the subset construction over follow states can produce
      is a set of follow states of positions. */
  lemma FollowStepStaysInside(g: Attrs, f: set<FollowState>, c: char)
    ensures FollowStep(g, f, c) <= FollowStates(g)
  {
    forall t | t in FollowStep(g, f, c) ensures t in FollowStates(g) {
      var q :| q in f && t in FollowTransition(g, q, c);
      var j :| j in Select(g, q.follow, c) && t == FollowStateOf(g, j);
      assert j in {0} + g.pos.Keys;
    }
  }

  /** The deterministic follow automaton's states, found breadth-first:
      its state count is the BFS count, not the count of follow states. */
  method DeterministicFollowStates(g: Attrs) returns (states: set<set<FollowState>>, count: nat)
    ensures count == |states|
    ensures {FollowStateOf(g, 0)} in states
    ensures forall f | f in states :: f <= FollowStates(g)
    ensures forall f | f in states && f != {FollowStateOf(g, 0)} :: f != {}
    ensures forall f, c | f in states && c in Symbols(g) && FollowStep(g, f, c) != {} :: FollowStep(g, f, c) in states
    ensures forall f | f in states :: exists w :: Over(w, Symbols(g)) && FollowAfter(g, w) == f
  {
    forall f, c | f in PowerSet(FollowStates(g)) && c in Symbols(g)
      ensures FollowDelta(g)(f, c) in PowerSet(FollowStates(g))
    {
      FollowStepStaysInside(g, f, c);
    }
    assert FollowStateOf(g, 0) in FollowStates(g);
    states := AllStates({FollowStateOf(g, 0)}, FollowDelta(g), (f: set<FollowState>) => |f|, Symbols(g),
                        PowerSet(FollowStates(g)));
    count := |states|;
    forall f, c | f in states && c in Symbols(g) && FollowStep(g, f, c) != {}
      ensures FollowStep(g, f, c) in states
    {
      assert |FollowDelta(g)(f, c)| != 0;
    }
    forall f | f in states ensures exists w :: Over(w, Symbols(g)) && FollowAfter(g, w) == f {
      var w :| Over(w, Symbols(g)) && Run({FollowStateOf(g, 0)}, FollowDelta(g), w) == f;
      assert FollowAfter(g, w) == f;
    }
  }

  // ----- Mark-before automaton -----

  /** Does some position of s end a match? */
  predicate SetFinality(g: Attrs, s: set<int>)
    ensures SetFinality(g, s) <==> s * g.last0 != {}
  {
    var b := exists i :: i in s && i in g.last0;
    assert b <==> s * g.last0 != {} by {
      if s * g.last0 != {} {
        var i := Pick(s * g.last0);
        assert i in s && i in g.last0;
      }
      if b {
        var i :| i in s && i in g.last0;
        assert i in s * g.last0;
      }
    }
    b
  }

  /** The initial state records what a step from {0} would: the follow
      set of 0 and whether 0 ends a match. */
  function MarkBeforeInit(g: Attrs): (q: FollowState)
    ensures q.follow == FollowSet(g, {0})
    ensures q.final == SetFinality(g, {0})
  {
    assert FollowSet(g, {0}) == g.first;
    FollowState(g.first, 0 in g.last0)
  }

  /** Select the positions carrying c, take finality from them, then close
      them under `follow`. */
  function MarkBeforeStep(g: Attrs, q: FollowState, c: char): (r: FollowState)
    ensures forall j :: j in r.follow
              <==> exists i :: i in q.follow && i in g.pos && g.pos[i] == c && j in FollowI(g, i)
    ensures r.final <==> exists i :: i in q.follow && i in g.pos && g.pos[i] == c && i in g.last0
    ensures q.follow == {} ==> r == FollowState({}, false)
  {
    var selected := Select(g, q.follow, c);
    FollowState(FollowSet(g, selected), SetFinality(g, selected))
  }

  function MarkBeforeDelta(g: Attrs): (FollowState, char) -> FollowState {
    (q: FollowState, c: char) => MarkBeforeStep(g, q, c)
  }

  function MarkBeforeAfter(g: Attrs, w: seq<char>): FollowState {
    Run(MarkBeforeInit(g), MarkBeforeDelta(g), w)
  }

  /** The mark-before state after w is the follow set and the finality of
      the McNaughton-Yamada state after w. */
  lemma {:induction false} MarkBeforeTracksMcNaughtonYamada(g: Attrs, w: seq<char>)
    ensures MarkBeforeAfter(g, w)
         == FollowState(FollowSet(g, McNaughtonYamadaAfter(g, w)), SetFinality(g, McNaughtonYamadaAfter(g, w)))
    decreases |w|
  {
    if |w| == 0 {
      assert FollowSet(g, {0}) == g.first;
    } else {
      MarkBeforeTracksMcNaughtonYamada(g, w[..|w| - 1]);
    }
  }

  /** A state whose follow set is empty leads only to states whose follow
      set is empty and that are not final, whatever its own finality. */
  lemma MarkBeforeDeadStaysDead(g: Attrs)
    ensures DeadStaysDead(MarkBeforeDelta(g), (q: FollowState) => |q.follow|, (q: FollowState) => q.final)
  {
    forall q: FollowState, c: char | |q.follow| == 0
      ensures |MarkBeforeStep(g, q, c).follow| == 0 && !MarkBeforeStep(g, q, c).final
    {
      assert q.follow == {};
      assert Select(g, q.follow, c) == {};
    }
  }

  method MarkBeforeAccepts(g: Attrs, w: seq<char>) returns (accepted: bool)
    ensures accepted == MarkBeforeAfter(g, w).final
  {
    MarkBeforeDeadStaysDead(g);
    accepted := Accepts(MarkBeforeInit(g), MarkBeforeDelta(g), (q: FollowState) => |q.follow|,
                        (q: FollowState) => q.final, w);
  }

  /** Every position a follow set can hold. */
  function Targets(g: Attrs): set<int> {
    g.first + set p | p in g.follow :: p.1
  }

  ghost function MarkBeforeCandidates(g: Attrs): set<FollowState> {
    set s, b | s in PowerSet(Targets(g)) && b in {false, true} :: FollowState(s, b)
  }

  /** The mark-before states found breadth-first. A state whose follow set
      is empty is never recorded, even when it is final, because the size
      of a state is the size of its follow set. */
  method MarkBeforeStates(g: Attrs) returns (states: set<FollowState>, count: nat)
    ensures count == |states|
    ensures MarkBeforeInit(g) in states
    ensures forall q | q in states :: q.follow <= Targets(g)
    ensures forall q | q in states && q != MarkBeforeInit(g) :: q.follow != {}
    ensures forall q, c | q in states && c in Symbols(g) && MarkBeforeStep(g, q, c).follow != {}
              :: MarkBeforeStep(g, q, c) in states
    ensures forall q | q in states :: exists w :: Over(w, Symbols(g)) && MarkBeforeAfter(g, w) == q
  {
    forall q, c | q in MarkBeforeCandidates(g) && c in Symbols(g)
      ensures MarkBeforeDelta(g)(q, c) in MarkBeforeCandidates(g)
    {
      var r := MarkBeforeStep(g, q, c);
      assert r.follow <= Targets(g);
      assert r.follow in PowerSet(Targets(g));
    }
    assert g.first in PowerSet(Targets(g));
    states := AllStates(MarkBeforeInit(g), MarkBeforeDelta(g), (q: FollowState) => |q.follow|, Symbols(g),
                        MarkBeforeCandidates(g));
    count := |states|;
    forall q, c | q in states && c in Symbols(g) && MarkBeforeStep(g, q, c).follow != {}
      ensures MarkBeforeStep(g, q, c) in states
    {
      assert |MarkBeforeDelta(g)(q, c).follow| != 0;
    }
    forall q | q in states ensures exists w :: Over(w, Symbols(g)) && MarkBeforeAfter(g, w) == q {
      var w :| Over(w, Symbols(g)) && Run(MarkBeforeInit(g), MarkBeforeDelta(g), w) == q;
      assert MarkBeforeAfter(g, w) == q;
    }
  }

  // ----- All constructions agree -----

  /** The language every construction accepts: the words after which the
      position automaton's frontier meets `last0`. */
  predicate Accepted(g: Attrs, w: seq<char>) {
    PositionAfter(g, w) * g.last0 != {}
  }

  /** Every construction accepts exactly the words the position automaton
      accepts. */
  lemma EnginesAgree(g: Attrs, w: seq<char>)
    ensures (exists i :: i in PositionAfter(g, w) && i in g.last0) <==> Accepted(g, w)
    ensures (exists i :: i in McNaughtonYamadaAfter(g, w) && i in g.last0) <==> Accepted(g, w)
    ensures (exists q :: q in FollowAfter(g, w) && q.final) <==> Accepted(g, w)
    ensures MarkBeforeAfter(g, w).final <==> Accepted(g, w)
  {
    McNaughtonYamadaIsPosition(g, w);
    FollowIsImageOfPosition(g, w);
    ImageFinal(g, PositionAfter(g, w));
    MarkBeforeTracksMcNaughtonYamada(g, w);
    var s := PositionAfter(g, w);
    if s * g.last0 != {} {
      var i :| i in s * g.last0;
      assert i in s && i in g.last0;
    }
  }

  /** The constructions a caller can choose. */
  datatype Engine =
    | Position
    | DeterministicPosition
    | McNaughtonYamada
    | Follow
    | DeterministicFollow
    | MarkBefore

  method EngineAccepts(g: Attrs, engine: Engine, w: seq<char>) returns (accepted: bool)
    ensures accepted == Accepted(g, w)
  {
    EnginesAgree(g, w);
    match engine
    case Position => accepted := PositionAccepts(g, w);
    case DeterministicPosition => accepted := DeterministicPositionAccepts(g, w);
    case McNaughtonYamada => accepted := McNaughtonYamadaAccepts(g, w);
    case Follow => accepted := FollowAccepts(g, w);
    case DeterministicFollow => accepted := DeterministicFollowAccepts(g, w);
    case MarkBefore => accepted := MarkBeforeAccepts(g, w);
  }
}
