/** Ruby's `String#split(/-+/)` as `parse_bounds` uses it: the text is cut at
    every maximal run of dashes, and empty fields at the end are dropped. */
module DashSplit {
  import opened Chars

  function Dashes(n: nat): (r: string)
    ensures |r| == n
    ensures forall k :: 0 <= k < n ==> r[k] == '-'
  {
    if n == 0 then "" else "-" + Dashes(n - 1)
  }

  /** The fields of `s`. A leading dash run leaves an empty first field; a
      trailing one leaves nothing. */
  function SplitDashes(s: string): (r: seq<string>)
    ensures forall i :: 0 <= i < |r| ==> Free(r[i], '-')
    ensures forall i :: 0 < i < |r| ==> |r[i]| > 0
    ensures |r| > 0 ==> |r[|r| - 1]| > 0
    ensures |s| > 0 && s[0] != '-' ==> |r| > 0 && |r[0]| > 0 && r[0][0] == s[0]
    decreases |s|
  {
    var e := RunEnd(s, 0, NonDash);
    var d := RunEnd(s, e, Dash);
    if d == |s| then
      (if e == 0 then [] else [s[..e]])
    else
      [s[..e]] + SplitDashes(s[d..])
  }

  /** Fields put back together, each pair separated by a dash run of the
      given length. */
  function JoinRuns(parts: seq<string>, runs: seq<nat>): (r: string)
    requires |parts| <= |runs| + 1
    decreases |parts|
  {
    if |parts| == 0 then ""
    else if |parts| == 1 then parts[0]
    else parts[0] + (Dashes(runs[0]) + JoinRuns(parts[1..], runs[1..]))
  }

  /** What a well-formed list of fields looks like: no dashes inside, none
      empty except possibly the first, and not a lone empty field. */
  predicate FieldsShape(parts: seq<string>) {
    (forall i :: 0 <= i < |parts| ==> Free(parts[i], '-'))
    && (forall i :: 0 < i < |parts| ==> |parts[i]| > 0)
    && (|parts| > 0 ==> |parts[|parts| - 1]| > 0)
  }

  /** One step of the cut, once the first field and dash run are known. */
  lemma SplitUnfold(s: string, e: nat, d: nat)
    requires d < |s| && RunEnd(s, 0, NonDash) == e && RunEnd(s, e, Dash) == d
    ensures SplitDashes(s) == [s[..e]] + SplitDashes(s[d..])
  {
  }

  /** Where the first field and the dash run after it end. */
  lemma FieldThenRun(a: string, n: nat, rest: string)
    requires Free(a, '-') && n > 0 && |rest| > 0 && rest[0] != '-'
    ensures RunEnd(a + (Dashes(n) + rest), 0, NonDash) == |a|
    ensures RunEnd(a + (Dashes(n) + rest), |a|, Dash) == |a| + n
  {
    var s := a + (Dashes(n) + rest);
    assert forall k :: 0 <= k < |a| ==> s[k] == a[k];
    RunEndUnique(s, 0, NonDash, |a|);
    assert forall k :: |a| <= k < |a| + n ==> s[k] == Dashes(n)[k - |a|];
    assert s[|a| + n] == rest[0];
    RunEndUnique(s, |a|, Dash, |a| + n);
  }

  /** Cutting after a dash-free field and a dash run moves on to the rest. */
  lemma SplitStep(a: string, n: nat, rest: string)
    requires Free(a, '-') && n > 0 && |rest| > 0 && rest[0] != '-'
    ensures SplitDashes(a + (Dashes(n) + rest)) == [a] + SplitDashes(rest)
  {
    var s := a + (Dashes(n) + rest);
    FieldThenRun(a, n, rest);
    Parts3(a, Dashes(n), rest);
    assert |Dashes(n)| == n;
    SplitAfter(s, |a|, |a| + n, a, rest);
  }

  /** One step of the cut, with the first field and the rest named. */
  lemma SplitAfter(s: string, e: nat, d: nat, a: string, rest: string)
    requires d < |s| && RunEnd(s, 0, NonDash) == e && RunEnd(s, e, Dash) == d
    requires s[..e] == a && s[d..] == rest
    ensures SplitDashes(s) == [a] + SplitDashes(rest)
  {
    SplitUnfold(s, e, d);
  }

  /** The three pieces of a three-piece concatenation. */
  lemma Parts3(x: string, y: string, z: string)
    ensures (x + (y + z))[..|x|] == x
    ensures (x + (y + z))[|x|..|x| + |y|] == y
    ensures (x + (y + z))[|x| + |y|..] == z
  {
    assert (x + (y + z))[|x|..] == y + z;
    assert (y + z)[..|y|] == y;
  }

  /** A text cut into three pieces at two positions. */
  lemma Cut3(s: string, e: nat, d: nat)
    requires e <= d <= |s|
    ensures s == s[..e] + (s[e..d] + s[d..])
  {
  }

  /** The last field, followed by a possibly empty dash run. */
  lemma SplitLast(a: string, t: nat)
    requires Free(a, '-') && |a| > 0
    ensures SplitDashes(a + Dashes(t)) == [a]
  {
    var s := a + Dashes(t);
    assert forall k :: 0 <= k < |a| ==> s[k] == a[k];
    if t > 0 {
      assert s[|a|] == '-';
    }
    RunEndUnique(s, 0, NonDash, |a|);
    assert forall k :: |a| <= k < |s| ==> s[k] == Dashes(t)[k - |a|];
    RunEndUnique(s, |a|, Dash, |s|);
    assert s[..|a|] == a;
  }

  /** Nothing but dashes has no fields. */
  lemma SplitOnlyDashes(t: nat)
    ensures SplitDashes(Dashes(t)) == []
  {
    RunEndUnique(Dashes(t), 0, NonDash, 0);
    RunEndUnique(Dashes(t), 0, Dash, t);
  }

  /** Round trip from fields: joining well-formed fields with dash runs of
      any lengths, and any trailing dashes, splits back into those fields. */
  lemma {:induction false} SplitJoinRuns(parts: seq<string>, runs: seq<nat>, t: nat)
    requires FieldsShape(parts) && |parts| <= |runs| + 1
    requires forall i :: 0 <= i < |runs| ==> runs[i] > 0
    ensures SplitDashes(JoinRuns(parts, runs) + Dashes(t)) == parts
    decreases |parts|
  {
    if |parts| == 0 {
      assert JoinRuns(parts, runs) + Dashes(t) == Dashes(t);
      SplitOnlyDashes(t);
    } else if |parts| == 1 {
      SplitLast(parts[0], t);
    } else {
      var tail := parts[1..];
      FieldsShapeTail(parts);
      SplitJoinRuns(tail, runs[1..], t);
      var j := JoinRuns(tail, runs[1..]);
      JoinRunsStart(tail, runs[1..]);
      var rest := j + Dashes(t);
      RestStart(j, Dashes(t), tail[0]);
      Assoc4(parts[0], Dashes(runs[0]), j, Dashes(t));
      SplitStep(parts[0], runs[0], rest);
      assert parts == [parts[0]] + tail;
    }
  }

  /** The fields after the first are well formed too. */
  lemma FieldsShapeTail(parts: seq<string>)
    requires FieldsShape(parts) && |parts| > 1
    ensures FieldsShape(parts[1..]) && Free(parts[0], '-') && |parts[1]| > 0
  {
    var tail := parts[1..];
    assert forall i :: 0 <= i < |tail| ==> tail[i] == parts[i + 1];
  }

  /** The first character of a text that starts with a dash-free field. */
  lemma RestStart(j: string, d: string, f: string)
    requires |j| > 0 && |f| > 0 && j[0] == f[0] && Free(f, '-')
    ensures |j + d| > 0 && (j + d)[0] != '-'
  {
    assert f[0] != '-';
  }

  lemma Assoc4(a: string, b: string, c: string, d: string)
    ensures (a + (b + c)) + d == a + (b + (c + d))
  {
  }

  /** Joined fields start with the first field when it is not empty. */
  lemma JoinRunsStart(parts: seq<string>, runs: seq<nat>)
    requires |parts| > 0 && |parts[0]| > 0 && |parts| <= |runs| + 1
    ensures |JoinRuns(parts, runs)| > 0 && JoinRuns(parts, runs)[0] == parts[0][0]
  {
  }

  /** `s` is `parts` joined by non-empty dash runs, then a (possibly empty)
      dash run. */
  ghost predicate JoinedFrom(s: string, parts: seq<string>) {
    exists runs: seq<nat>, t: nat ::
      |parts| <= |runs| + 1
      && (forall i :: 0 <= i < |runs| ==> runs[i] > 0)
      && s == JoinRuns(parts, runs) + Dashes(t)
  }

  lemma JoinedFromCons(s: string, head: string, n: nat, rest: string, parts: seq<string>)
    requires JoinedFrom(rest, parts) && |parts| > 0 && n > 0
    requires s == head + (Dashes(n) + rest)
    ensures JoinedFrom(s, [head] + parts)
  {
    var runs: seq<nat>, t: nat :| |parts| <= |runs| + 1
      && (forall i :: 0 <= i < |runs| ==> runs[i] > 0)
      && rest == JoinRuns(parts, runs) + Dashes(t);
    var parts' := [head] + parts;
    var runs' := [n] + runs;
    assert parts'[1..] == parts && runs'[1..] == runs;
    assert JoinRuns(parts', runs') == head + (Dashes(n) + JoinRuns(parts, runs));
    assert s == JoinRuns(parts', runs') + Dashes(t);
  }

  /** Round trip from text: every text is its fields joined with dash runs,
      followed by a (possibly empty) dash run. */
  lemma {:induction false} SplitCovers(s: string)
    ensures JoinedFrom(s, SplitDashes(s))
    decreases |s|
  {
    var e := RunEnd(s, 0, NonDash);
    var d := RunEnd(s, e, Dash);
    assert s[e..d] == Dashes(d - e);
    Cut3(s, e, d);
    if d == |s| {
      if e == 0 {
        assert s == JoinRuns([], []) + Dashes(d);
      } else {
        assert s == JoinRuns([s[..e]], []) + Dashes(d - e);
      }
    } else {
      var rest := s[d..];
      SplitCovers(rest);
      SplitUnfold(s, e, d);
      JoinedFromCons(s, s[..e], d - e, rest, SplitDashes(rest));
    }
  }
}
