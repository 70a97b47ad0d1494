/** The machinery every automaton shares: the state reached after a word,
    acceptance with its early exit on a dead state, and the breadth-first
    exploration of the states a deterministic automaton can reach.

    An automaton is given by its initial state, its transition function,
    a size (the `len` of a state: how many positions it holds) and its
    finality test. For a nondeterministic automaton the "state" here is
    the whole frontier, a set of underlying states.
 */
module Automaton {

  /** The state reached from `init` after reading w left to right. */
  function Run<S>(init: S, step: (S, char) -> S, w: seq<char>): S
    decreases |w|
  {
    if |w| == 0 then init else step(Run(init, step, w[..|w| - 1]), w[|w| - 1])
  }

  lemma RunSnoc<S>(init: S, step: (S, char) -> S, w: seq<char>, c: char)
    ensures Run(init, step, w + [c]) == step(Run(init, step, w), c)
  {
    assert (w + [c])[..|w|] == w;
  }

  /** Reading c first and then v is running from the state c leads to. */
  lemma {:induction false} RunCons<S>(init: S, step: (S, char) -> S, c: char, v: seq<char>)
    ensures Run(init, step, [c] + v) == Run(step(init, c), step, v)
    decreases |v|
  {
    if |v| > 0 {
      var u := v[..|v| - 1];
      assert ([c] + v)[..|v|] == [c] + u;
      RunCons(init, step, c, u);
    } else {
      assert [c] + v == [c];
      assert [c][..0] == [];
    }
  }

  /** A state that c leads back to absorbs any run of c's. */
  lemma {:induction false} RunRepeats<S>(init: S, step: (S, char) -> S, c: char, q: S, m: seq<char>)
    requires step(init, c) == q && step(q, c) == q
    requires forall k | 0 <= k < |m| :: m[k] == c
    ensures |m| > 0 ==> Run(init, step, m) == q
    decreases |m|
  {
    if |m| > 1 {
      RunRepeats(init, step, c, q, m[..|m| - 1]);
    }
  }

  /** The state after c, a run m of a's and d, when a leads from the
      state after c to q and keeps q. */
  lemma RunThrough<S>(init: S, step: (S, char) -> S, c: char, a: char, m: seq<char>, d: char, q: S)
    requires step(step(init, c), a) == q && step(q, a) == q
    requires forall k | 0 <= k < |m| :: m[k] == a
    ensures |m| == 0 ==> Run(init, step, [c] + m + [d]) == step(step(init, c), d)
    ensures |m| > 0 ==> Run(init, step, [c] + m + [d]) == step(q, d)
  {
    RunSnoc(init, step, [c] + m, d);
    RunCons(init, step, c, m);
    RunRepeats(step(init, c), step, a, q, m);
  }

  /** A state of size 0 only leads to states of size 0, and none of those
      is final. */
  ghost predicate DeadStaysDead<S(!new)>(step: (S, char) -> S, size: S -> nat, final: S -> bool) {
    forall s, c :: size(s) == 0 ==> size(step(s, c)) == 0 && !final(step(s, c))
  }

  /** Once a state of size 0 is reached, every later state has size 0 and
      none of them is final. */
  lemma {:induction false} DeadRun<S(!new)>(init: S, step: (S, char) -> S, size: S -> nat, final: S -> bool,
                                      w: seq<char>, k: nat)
    requires DeadStaysDead(step, size, final)
    requires k < |w| && size(Run(init, step, w[..k])) == 0
    ensures size(Run(init, step, w)) == 0 && !final(Run(init, step, w))
    decreases |w| - k
  {
    var prefix := w[..|w| - 1];
    if k < |prefix| {
      assert prefix[..k] == w[..k];
      DeadRun(init, step, size, final, prefix, k);
    } else {
      assert prefix == w[..k];
    }
  }

  /** Acceptance: fold the transition over the word, answering false as
      soon as the current state has size 0 before a symbol is read, and
      otherwise asking whether the final state is accepting. The early
      exit never changes the answer, provided that a state of size 0 only
      leads to states of size 0 that are not final. */
  method Accepts<S(!new)>(init: S, step: (S, char) -> S, size: S -> nat, final: S -> bool, w: seq<char>)
    returns (accepted: bool)
    requires DeadStaysDead(step, size, final)
    ensures accepted == final(Run(init, step, w))
  {
    var state := init;
    var k := 0;
    while k < |w|
      invariant 0 <= k <= |w|
      invariant state == Run(init, step, w[..k])
    {
      if size(state) == 0 {
        DeadRun(init, step, size, final, w, k);
        return false;
      }
      RunSnoc(init, step, w[..k], w[k]);
      assert w[..k + 1] == w[..k] + [w[k]];
      state := step(state, w[k]);
      k := k + 1;
    }
    assert w[..k] == w;
    accepted := final(state);
  }

  /** Every symbol of w is drawn from `symbols`. */
  ghost predicate Over(w: seq<char>, symbols: set<char>) {
    forall k | 0 <= k < |w| :: w[k] in symbols
  }

  /** Breadth-first exploration from the initial state: each round applies
      every symbol to every state found in the previous round, and keeps
      the results that are new and of non-zero size. It stops after a
      round that finds nothing new. The result holds the initial state,
      only states of non-zero size besides it, only states some word
      reaches, and is closed under the transition except for results of
      size 0. The ghost `universe` is a finite set closed under the
      transition; it only bounds the exploration. */
  method AllStates<S(==)>(init: S, step: (S, char) -> S, size: S -> nat, symbols: set<char>,
                          ghost universe: set<S>)
    returns (states: set<S>)
    requires init in universe
    requires forall s, c | s in universe && c in symbols :: step(s, c) in universe
    ensures init in states && states <= universe
    ensures forall s | s in states && s != init :: size(s) != 0
    ensures forall s, c | s in states && c in symbols && size(step(s, c)) != 0 :: step(s, c) in states
    ensures forall s | s in states :: exists w :: Over(w, symbols) && Run(init, step, w) == s
    ensures forall w | Over(w, symbols) && LiveRun(init, step, size, w) :: Run(init, step, w) in states
  {
    states := {init};
    var toCheck := {init};
    assert Over([], symbols) && Run(init, step, []) == init;
    while toCheck != {}
      invariant toCheck <= states <= universe
      invariant init in states
      invariant forall s | s in states && s != init :: size(s) != 0
      invariant forall s, c | s in states - toCheck && c in symbols && size(step(s, c)) != 0 :: step(s, c) in states
      invariant forall s | s in states :: exists w :: Over(w, symbols) && Run(init, step, w) == s
      decreases |universe - states| + |toCheck|
    {
      var found := Round(states, toCheck, step, size, symbols);
      RoundReached(init, step, size, symbols, states, toCheck);
      ClosedAfterRound(states, toCheck, found, step, size, symbols);
      Shrinks(universe, states, found);
      states := states + found;
      toCheck := found;
    }
    ClosedHoldsRuns(states, init, step, size, symbols);
  }

  /** Every state after a non-empty prefix of w has non-zero size. */
  ghost predicate LiveRun<S>(init: S, step: (S, char) -> S, size: S -> nat, w: seq<char>) {
    forall k | 0 < k <= |w| :: size(Run(init, step, w[..k])) != 0
  }

  /** One round keeps the explored set closed: what the round leaves
      unchecked is exactly what it has just added. */
  lemma ClosedAfterRound<S>(states: set<S>, toCheck: set<S>, found: set<S>, step: (S, char) -> S, size: S -> nat,
                            symbols: set<char>)
    requires toCheck <= states
    requires forall s, c | s in states - toCheck && c in symbols && size(step(s, c)) != 0 :: step(s, c) in states
    requires forall s, c | s in toCheck && c in symbols && step(s, c) !in states && size(step(s, c)) != 0
               :: step(s, c) in found
    ensures forall s, c | s in (states + found) - found && c in symbols && size(step(s, c)) != 0
              :: step(s, c) in states + found
  {
  }

  /** The states one round finds: the results of applying every symbol
      to every state to check that are new and of non-zero size. */
  function Round<S(==)>(states: set<S>, toCheck: set<S>, step: (S, char) -> S, size: S -> nat,
                        symbols: set<char>): (found: set<S>)
    ensures forall s, c | s in toCheck && c in symbols && step(s, c) !in states && size(step(s, c)) != 0
              :: step(s, c) in found
    ensures forall t | t in found :: t !in states && size(t) != 0
    ensures forall t | t in found :: exists s, c :: s in toCheck && c in symbols && step(s, c) == t
  {
    set s, c | s in toCheck && c in symbols && step(s, c) !in states && size(step(s, c)) != 0 :: step(s, c)
  }

  /** Every state a round finds is reached by some word, when every state
      it starts from is. */
  lemma RoundReached<S>(init: S, step: (S, char) -> S, size: S -> nat, symbols: set<char>,
                        states: set<S>, toCheck: set<S>)
    requires toCheck <= states
    requires forall s | s in states :: exists w :: Over(w, symbols) && Run(init, step, w) == s
    ensures forall t | t in Round(states, toCheck, step, size, symbols)
              :: exists w :: Over(w, symbols) && Run(init, step, w) == t
  {
    forall t | t in Round(states, toCheck, step, size, symbols)
      ensures exists w :: Over(w, symbols) && Run(init, step, w) == t
    {
      var s, c :| s in toCheck && c in symbols && step(s, c) == t;
      var w :| Over(w, symbols) && Run(init, step, w) == s;
      RunSnoc(init, step, w, c);
      assert Over(w + [c], symbols);
    }
  }

  /** Adding new states of the universe shrinks what is left of it by as
      many. */
  lemma Shrinks<T>(universe: set<T>, states: set<T>, found: set<T>)
    requires found <= universe && found !! states
    ensures |universe - (states + found)| == |universe - states| - |found|
  {
    assert universe - (states + found) == (universe - states) - found;
    assert universe - states == ((universe - states) - found) + found;
  }

  /** Every word whose intermediate states all have non-zero size ends in
      a state of any set that holds the initial state and is closed under
      the transition except for results of size 0. */
  lemma {:induction false} ClosedHoldsRun<S>(states: set<S>, init: S, step: (S, char) -> S, size: S -> nat,
                                             symbols: set<char>, w: seq<char>)
    requires init in states
    requires forall s, c | s in states && c in symbols && size(step(s, c)) != 0 :: step(s, c) in states
    requires Over(w, symbols)
    requires LiveRun(init, step, size, w)
    ensures Run(init, step, w) in states
    decreases |w|
  {
    if |w| > 0 {
      var prefix := w[..|w| - 1];
      forall k | 0 < k <= |prefix| ensures size(Run(init, step, prefix[..k])) != 0 {
        assert prefix[..k] == w[..k];
      }
      ClosedHoldsRun(states, init, step, size, symbols, prefix);
      assert w[..|w|] == w;
    }
  }

  lemma ClosedHoldsRuns<S>(states: set<S>, init: S, step: (S, char) -> S, size: S -> nat, symbols: set<char>)
    requires init in states
    requires forall s, c | s in states && c in symbols && size(step(s, c)) != 0 :: step(s, c) in states
    ensures forall w | Over(w, symbols) && LiveRun(init, step, size, w) :: Run(init, step, w) in states
  {
    forall w | Over(w, symbols) && LiveRun(init, step, size, w) ensures Run(init, step, w) in states {
      ClosedHoldsRun(states, init, step, size, symbols, w);
    }
  }

  /** All subsets of s. */
  ghost function PowerSet<T(!new)>(s: set<T>): (r: set<set<T>>)
    ensures forall x :: x in r <==> x <= s
    decreases s
  {
    if s == {} then
      assert forall x | x <= s :: x == {};
      {{}}
    else
      var e :| e in s;
      var rest := PowerSet(s - {e});
      var r := rest + set x | x in rest :: x + {e};
      assert forall x | x <= s :: x in r by {
        forall x | x <= s ensures x in r {
          if e in x {
            assert x - {e} in rest;
            assert x == (x - {e}) + {e};
          } else {
            assert x in rest;
          }
        }
      }
      r
  }
}
