/** The parser accepts every pattern that is not malformed: a non-empty
    text with balanced parentheses, no leading ")", "|" or "*", no
    trailing "(" or "|", and no two adjacent characters that cannot
    follow each other always parses.

    Each rule is shown to succeed on a region of the text, a non-empty
    balanced well-formed span s[i..e], when the character after the
    region is one the rule stops at.
 */
module Completeness {
  import opened Tree
  import opened Parser

  /** s[i..e] is non-empty, well formed and balanced. */
  predicate Region(s: string, i: nat, e: nat) {
    i < e <= |s| && WellFormedSpan(s, i, e) && Balanced(s, i, e)
  }

  /** s[i..k] holds no "|" outside every parenthesis. */
  predicate NoTopBar(s: string, i: nat, k: nat)
    requires i <= k <= |s|
  {
    forall x | i <= x < k :: s[x] == '|' ==> Excess(s, i, x) != 0
  }

  /** The first index x >= m at which the region s[i..e] ends or holds a
      "|" outside every parenthesis. */
  function TopBar(s: string, i: nat, m: nat, e: nat): (x: nat)
    requires i <= m <= e <= |s|
    ensures m <= x <= e
    ensures x == e || (s[x] == '|' && Excess(s, i, x) == 0)
    ensures forall y | m <= y < x :: s[y] == '|' ==> Excess(s, i, y) != 0
    decreases e - m
  {
    if m == e || (s[m] == '|' && Excess(s, i, m) == 0) then m else TopBar(s, i, m + 1, e)
  }

  /** The first index x >= m at which the parentheses opened since i are
      all closed again. */
  function Closing(s: string, i: nat, m: nat, e: nat): (x: nat)
    requires i <= m <= e <= |s| && Excess(s, i, e) == 0
    ensures m <= x <= e && Excess(s, i, x) == 0
    ensures forall y | m <= y < x :: Excess(s, i, y) != 0
    decreases e - m
  {
    if Excess(s, i, m) == 0 then m else Closing(s, i, m + 1, e)
  }

  /** Cutting a balanced word at a point of zero excess leaves a balanced
      rest, whose excesses are those counted from the old start. */
  lemma Rebase(s: string, i: nat, t: nat, k: nat)
    requires i <= t <= k <= |s| && Balanced(s, i, k) && Excess(s, i, t) == 0
    ensures forall x | t <= x <= k :: Excess(s, t, x) == Excess(s, i, x)
    ensures Balanced(s, t, k)
  {
    forall x | t <= x <= k ensures Excess(s, t, x) == Excess(s, i, x) {
      ExcessSplit(s, i, t, x);
    }
  }

  /** A well-formed span stays well formed when cut down to a piece that
      starts and ends with suitable characters. */
  lemma WellFormedPiece(s: string, i: nat, e: nat, a: nat, b: nat)
    requires i <= a < b <= e <= |s| && WellFormedSpan(s, i, e)
    requires !CannotStart(s[a]) && !CannotEnd(s[b - 1])
    ensures WellFormedSpan(s, a, b)
  {
  }

  /** The star rule never stops in front of a "*" unless it has just
      consumed one. */
  lemma StarFollow(s: string, i: nat, count: nat, depth: nat)
    requires i <= |s| && ParseStar(s, i, count, depth).Success?
    requires ParseStar(s, i, count, depth).value.next < |s|
    requires s[ParseStar(s, i, count, depth).value.next] == '*'
    ensures s[ParseStar(s, i, count, depth).value.next - 1] == '*'
  {
  }

  /** The alternation rule reads a whole region that ends the input or
      is closed by ")" inside parentheses. */
  lemma {:induction false} AltComplete(s: string, i: nat, e: nat, count: nat, depth: nat)
    requires Region(s, i, e)
    requires e == |s| || (s[e] == ')' && depth > 0)
    ensures ParseAlt(s, i, count, depth).Success?
    ensures ParseAlt(s, i, count, depth).value.next == e
    decreases e - i, 3
  {
    var m := TopBar(s, i, i, e);
    SplitAtTopBar(s, i, e, m);
    ConcatComplete(s, i, m, count, depth);
    if m < e {
      AltComplete(s, m + 1, e, ParseConcat(s, i, count, depth).value.count, depth);
    }
  }

  /** Cutting a region at its first top-level "|" leaves a non-empty
      region without one in front of it and a region behind it. */
  lemma SplitAtTopBar(s: string, i: nat, e: nat, m: nat)
    requires Region(s, i, e) && i <= e && m == TopBar(s, i, i, e)
    ensures i < m && Region(s, i, m) && NoTopBar(s, i, m)
    ensures m < e ==> m + 1 < e && Region(s, m + 1, e)
  {
    assert i < m by {
      assert !CannotStart(s[i]);
    }
    if m < e {
      assert !BadPair(s[m - 1], s[m]);
    }
    WellFormedPiece(s, i, e, i, m);
    if m < e {
      assert m + 1 < e by {
        assert !CannotEnd(s[e - 1]);
      }
      assert !BadPair(s[m], s[m + 1]);
      WellFormedPiece(s, i, e, m + 1, e);
      assert Excess(s, i, m + 1) == 0;
      Rebase(s, i, m + 1, e);
    }
  }

  /** The concatenation rule reads a whole region without a top-level
      "|" that is followed by "|", ")" or the end of the input. */
  lemma {:induction false} ConcatComplete(s: string, i: nat, k: nat, count: nat, depth: nat)
    requires Region(s, i, k) && NoTopBar(s, i, k)
    requires k == |s| || s[k] == '|' || s[k] == ')'
    ensures ParseConcat(s, i, count, depth).Success?
    ensures ParseConcat(s, i, count, depth).value.next == k
    decreases k - i, 2
  {
    StarComplete(s, i, k, count, depth);
    var p := ParseStar(s, i, count, depth).value;
    if p.next < k {
      StarLeavesRegion(s, i, k, p.next, count, depth);
      ConcatComplete(s, p.next, k, p.count, depth);
    }
  }

  /** A star read from the start of a region with no top-level "|" that
      stops inside it leaves such a region behind, and stops in front of
      a character that continues the concatenation. */
  lemma StarLeavesRegion(s: string, i: nat, k: nat, t: nat, count: nat, depth: nat)
    requires Region(s, i, k) && NoTopBar(s, i, k)
    requires ParseStar(s, i, count, depth).Success? && ParseStar(s, i, count, depth).value.next == t < k
    ensures s[t] != '|' && s[t] != ')'
    ensures Region(s, t, k) && NoTopBar(s, t, k)
  {
    assert Excess(s, i, t) == 0;
    assert s[t] != '|';
    assert s[t] != ')' by {
      assert Excess(s, i, t + 1) >= 0;
    }
    assert s[t] != '*' by {
      if s[t] == '*' {
        StarFollow(s, i, count, depth);
      }
    }
    WellFormedPiece(s, i, k, t, k);
    Rebase(s, i, t, k);
  }

  /** The star rule reads a prefix of a region followed by "|", ")" or
      the end of the input. */
  lemma {:induction false} StarComplete(s: string, i: nat, k: nat, count: nat, depth: nat)
    requires Region(s, i, k)
    requires k == |s| || s[k] == '|' || s[k] == ')'
    ensures ParseStar(s, i, count, depth).Success?
    ensures ParseStar(s, i, count, depth).value.next <= k
    decreases k - i, 1
  {
    AtomComplete(s, i, k, count, depth);
  }

  /** The atom rule reads a prefix of a region: its first character, or
      the parenthesised group it opens. */
  lemma {:induction false} AtomComplete(s: string, i: nat, k: nat, count: nat, depth: nat)
    requires Region(s, i, k)
    ensures ParseAtom(s, i, count, depth).Success?
    ensures ParseAtom(s, i, count, depth).value.next <= k
    decreases k - i, 0
  {
    if s[i] == '(' {
      assert i + 1 < k by {
        assert !CannotEnd(s[k - 1]);
      }
      assert Excess(s, i, i + 1) == 1;
      var m := Closing(s, i, i + 1, k);
      var c := m - 1;
      assert s[c] == ')' by {
        assert Excess(s, i, c) >= 0;
      }
      assert i + 1 < c by {
        assert !BadPair(s[i], s[i + 1]);
      }
      assert Region(s, i + 1, c) by {
        assert !BadPair(s[i], s[i + 1]);
        assert !BadPair(s[c - 1], s[c]);
        WellFormedPiece(s, i, k, i + 1, c);
        InnerBalanced(s, i, c, k);
      }
      AltComplete(s, i + 1, c, count, depth + 1);
    }
  }

  /** Inside the first group that closes at c, the text between the
      parentheses is balanced. */
  lemma InnerBalanced(s: string, i: nat, c: nat, k: nat)
    requires i + 1 < c < k <= |s| && Balanced(s, i, k)
    requires Excess(s, i, i + 1) == 1 && Excess(s, i, c + 1) == 0 && s[c] == ')'
    requires forall y | i + 1 <= y < c + 1 :: Excess(s, i, y) != 0
    ensures Balanced(s, i + 1, c)
  {
    var j := i + 1;
    forall x | j <= x <= c ensures Excess(s, j, x) == Excess(s, i, x) - 1 >= 0 {
      ExcessSplit(s, i, j, x);
      assert Excess(s, i, x) >= 0;
    }
    assert Excess(s, i, c + 1) == Excess(s, i, c) - 1;
  }

  /** A pattern parses exactly when it is non-empty, well formed and
      balanced. */
  lemma ParseSucceedsIffWellFormed(s: string)
    ensures Parse(s).Success? <==> |s| > 0 && WellFormedSpan(s, 0, |s|) && Balanced(s, 0, |s|)
  {
    if |s| > 0 && WellFormedSpan(s, 0, |s|) && Balanced(s, 0, |s|) {
      AltComplete(s, 0, |s|, 1, 0);
    }
  }
}
