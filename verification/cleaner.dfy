/** `cleaner_coordinate`: the pattern `^\(?([^)]+)\)?\.?$` strips an
    optional leading `(`, and an optional `)` optionally followed by `.`.
    The two parentheses are independent, so a lone `(` is stripped too; a
    final `.` is removed only after a `)`, since otherwise the capture takes
    it. A value the pattern does not match is returned unchanged. */
module Cleaner {
  import opened Options
  import opened Chars

  /** What `\)?\.?$` accepts after the captured text. */
  predicate AcceptedTail(t: string) {
    t == "" || t == ")" || t == "." || t == ")."
  }

  /** The pattern read declaratively: the capture `s[a..p]` is preceded by an
      optional `(` (`a` is 0 or 1), is non-empty, holds no `)`, and is
      followed by an accepted tail. */
  ghost predicate PatternMatch(s: string, a: nat, p: nat) {
    (a == 0 || (a == 1 && |s| > 0 && s[0] == '('))
    && a < p <= |s|
    && (forall k :: a <= k < p ==> s[k] != ')')
    && AcceptedTail(s[p..])
  }

  /** The match a backtracking engine reports among all of them: the greedy
      `\(?` is tried consuming first, then the greedy `[^)]+` longest first. */
  ghost predicate Preferred(s: string, a: nat, p: nat) {
    PatternMatch(s, a, p)
    && forall a': nat, p': nat :: PatternMatch(s, a', p') ==> a' < a || (a' == a && p' <= p)
  }

  /** Bounds of the capture group, found the way the engine does: the
      capture can only stop at the first `)` (or the end), so only the tail
      from there decides, and the `(` is consumed when the capture is
      still non-empty without it. */
  function Capture(s: string): (r: Option<(nat, nat)>)
    ensures r.Some? ==> r.value.0 < r.value.1 <= |s|
  {
    var q := RunEnd(s, 0, NonCloseParen);
    var tail := s[q..];
    if !(tail == "" || tail == ")" || tail == ").") then None
    else if |s| > 0 && s[0] == '(' && q > 1 then Some((1, q))
    else if q > 0 then Some((0, q))
    else None
  }

  /** The capture when the pattern matches, otherwise the value itself. */
  function Clean(s: string): (r: string)
    ensures Capture(s).None? ==> r == s
    ensures Capture(s).Some? ==> |r| > 0 && forall k :: 0 <= k < |r| ==> r[k] != ')'
  {
    match Capture(s)
    case Some((a, p)) => s[a..p]
    case None => s
  }

  /** Every match stops at or before the first `)`, and one that stops
      before it can only be followed by a lone `.` at the very end. */
  lemma MatchBeforeFirstParen(s: string, a: nat, p: nat)
    requires PatternMatch(s, a, p)
    ensures p <= RunEnd(s, 0, NonCloseParen)
    ensures p < RunEnd(s, 0, NonCloseParen) ==> RunEnd(s, 0, NonCloseParen) == |s|
  {
    var q := RunEnd(s, 0, NonCloseParen);
    if p < q {
      assert s[p] != ')';
      assert s[p..] == ".";
    }
  }

  /** `Capture` finds exactly the match the engine prefers, and finds none
      exactly when the pattern cannot match. */
  lemma CaptureIsPreferred(s: string)
    ensures Capture(s).Some? ==> Preferred(s, Capture(s).value.0, Capture(s).value.1)
    ensures Capture(s).None? <==> forall a: nat, p: nat :: !PatternMatch(s, a, p)
  {
    var q := RunEnd(s, 0, NonCloseParen);
    forall a: nat, p: nat | PatternMatch(s, a, p)
      ensures Capture(s).Some?
      ensures a < Capture(s).value.0 || (a == Capture(s).value.0 && p <= Capture(s).value.1)
    {
      MatchBeforeFirstParen(s, a, p);
      assert s[q..] == "" || s[q..] == ")" || s[q..] == ").";
    }
    if Capture(s).Some? {
      var (a, p) := Capture(s).value;
      assert p == q;
      assert forall k :: a <= k < p ==> s[k] != ')';
      assert PatternMatch(s, a, p);
    }
  }

  /** What `cleaner_coordinate` returns, stated against the declarative
      pattern: the preferred capture when there is a match, else the value. */
  lemma CleanIsPreferredCapture(s: string)
    ensures forall a: nat, p: nat :: Preferred(s, a, p) ==> Clean(s) == s[a..p]
    ensures (forall a: nat, p: nat :: !PatternMatch(s, a, p)) ==> Clean(s) == s
  {
    CaptureIsPreferred(s);
    forall a: nat, p: nat | Preferred(s, a, p) ensures Clean(s) == s[a..p] {
      var (a0, p0) := Capture(s).value;
      assert Preferred(s, a0, p0);
    }
  }

  /** The first `)` of `s` when the text before it holds none. */
  lemma FirstParenAt(s: string, q: nat)
    requires q <= |s| && (q == |s| || s[q] == ')')
    requires forall k :: 0 <= k < q ==> s[k] != ')'
    ensures RunEnd(s, 0, NonCloseParen) == q
  {
    RunEndUnique(s, 0, NonCloseParen, q);
  }

  /** A parenthesised value, with or without a closing `)` and a final `.`,
      is unwrapped to its inside. */
  lemma CleanUnwraps(x: string, tail: string)
    requires |x| > 0 && forall k :: 0 <= k < |x| ==> x[k] != ')'
    requires tail == "" || tail == ")" || tail == ")."
    ensures Clean("(" + x + tail) == x
  {
    var s := "(" + x + tail;
    forall k | 0 <= k < |x| + 1 ensures s[k] != ')' {
      if k > 0 {
        assert s[k] == x[k - 1];
      }
    }
    FirstParenAt(s, |x| + 1);
    assert s[|x| + 1..] == tail;
    assert s[1..|x| + 1] == x;
  }

  /** A value with no parentheses of its own keeps everything, including a
      final `.`, and loses only a closing `)` or `).`. */
  lemma CleanKeepsPlain(x: string, tail: string)
    requires |x| > 0 && x[0] != '(' && forall k :: 0 <= k < |x| ==> x[k] != ')'
    requires tail == "" || tail == ")" || tail == ")."
    ensures Clean(x + tail) == x
  {
    var s := x + tail;
    assert forall k :: 0 <= k < |x| ==> s[k] == x[k];
    FirstParenAt(s, |x|);
    assert s[|x|..] == tail;
    assert s[..|x|] == x;
  }

  /** Text after the first `)` other than a lone `.` defeats the pattern,
      and the value comes back unchanged. */
  lemma CleanKeepsUnmatched(s: string, q: nat)
    requires q < |s| && s[q] == ')' && forall k :: 0 <= k < q ==> s[k] != ')'
    requires s[q + 1..] != "" && s[q + 1..] != "."
    ensures Clean(s) == s
  {
    FirstParenAt(s, q);
    assert s[q..] == [')'] + s[q + 1..];
  }

  /** The two parentheses are independent and the full stop needs a `)`:
      a lone `(` is stripped, while a final `.` with no `)` before it is
      kept. */
  lemma StopNeedsCloseParen()
    ensures Clean("x.") == "x."
    ensures Clean("(x") == "x"
  {
    CleanKeepsPlain("x.", "");
    assert "x." + "" == "x.";
    CleanUnwraps("x", "");
    assert "(" + "x" + "" == "(x";
  }
}
