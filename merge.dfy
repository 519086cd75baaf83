/**
 * The run merger of `PPTXRendering._merge_placeholder_runs`.
 *
 * A paragraph is a list of runs; a run's text is a string.  A text editor
 * may split one typed placeholder `{{ name }}` over several runs.  The
 * merger scans the runs left to right; when run i contains `{{`, it
 * appends the texts of the following runs until the accumulated text
 * contains `}}`, writes that text into run i, empties the runs it absorbed
 * (they stay in place, keeping their formatting) and resumes after them.
 * When no `}}` is ever found the scan stops.  Containment is plain
 * substring search, so a run such as "}} {{x" already counts as closed.
 *
 * `Merged` is the specification: the scan continued at position i of the
 * source corresponds to `Merged` applied to the suffix of runs from i.
 * `MergePlaceholderRuns` is the in-place algorithm, proved against it.
 */
module Merge {
  import opened Wrappers
  import opened Text

  /** The text of the first m runs contains the closing token. */
  predicate ClosedBy(runs: seq<string>, m: nat)
    requires m <= |runs|
  {
    Contains(Concat(runs[..m]), Close)
  }

  /**
   * The first m with start <= m <= |runs| such that the text of runs[..m]
   * contains the closing token, if there is one.
   */
  function FirstClose(runs: seq<string>, start: nat): (r: Option<nat>)
    requires 1 <= start <= |runs|
    ensures r.Some? ==> start <= r.value <= |runs| && ClosedBy(runs, r.value)
    ensures r.Some? ==> forall x :: start <= x < r.value ==> !ClosedBy(runs, x)
    ensures r.None? ==> forall x :: start <= x <= |runs| ==> !ClosedBy(runs, x)
    decreases |runs| - start
  {
    if ClosedBy(runs, start) then Some(start)
    else if start == |runs| then None
    else FirstClose(runs, start + 1)
  }

  /**
   * Where the merge opened at runs[0] ends: the smallest m >= 1 such that
   * runs[0] + ... + runs[m-1] contains `}}`, or None.
   */
  function CloseAt(runs: seq<string>): (r: Option<nat>)
    requires |runs| > 0
    ensures r.Some? ==> 1 <= r.value <= |runs| && ClosedBy(runs, r.value)
    ensures r.Some? ==> forall x :: 1 <= x < r.value ==> !ClosedBy(runs, x)
    ensures r.None? ==> !Contains(Concat(runs), Close)
  {
    var r := FirstClose(runs, 1);
    assert r.None? ==> !ClosedBy(runs, |runs|);
    assert runs[..|runs|] == runs;
    r
  }

  /** `n` empty runs. */
  function Blanks(n: nat): (r: seq<string>)
    ensures |r| == n && forall k :: 0 <= k < n ==> r[k] == ""
  {
    if n == 0 then [] else Blanks(n - 1) + [""]
  }

  /** The runs after the merge scan (specification of the in-place merger). */
  function Merged(runs: seq<string>): (r: seq<string>)
    ensures |r| == |runs|
    decreases |runs|
  {
    if runs == [] then []
    else if !Contains(runs[0], Open) then [runs[0]] + Merged(runs[1..])
    else match CloseAt(runs)
      case None => runs
      case Some(m) => [Concat(runs[..m])] + Blanks(m - 1) + Merged(runs[m..])
  }

  /** The text of runs[0..m] is runs[0] followed by the text of runs[1..m]. */
  lemma ConcatFront(runs: seq<string>, m: nat)
    requires 1 <= m <= |runs|
    ensures Concat(runs[..m]) == runs[0] + Concat(runs[1..m])
  {
    ConcatAppend([runs[0]], runs[1..m]);
    assert [runs[0]] + runs[1..m] == runs[..m];
    assert Concat([runs[0]]) == Concat([]) + runs[0];
  }

  /** A closing token found in a prefix of the runs is in the whole text. */
  lemma ClosedPrefix(runs: seq<string>, m: nat)
    requires m <= |runs| && ClosedBy(runs, m)
    ensures Contains(Concat(runs), Close)
  {
    assert runs[..m] + runs[m..] == runs;
    ConcatAppend(runs[..m], runs[m..]);
    ContainsAppendRight(Concat(runs[..m]), Concat(runs[m..]), Close);
  }

  /** Merging keeps the paragraph's text: the run texts concatenate to the same string. */
  lemma {:induction false} MergedConcat(runs: seq<string>)
    ensures Concat(Merged(runs)) == Concat(runs)
    decreases |runs|
  {
    if runs != [] {
      if !Contains(runs[0], Open) {
        var rest := runs[1..];
        assert runs == [runs[0]] + rest;
        assert Merged(runs) == [runs[0]] + Merged(rest);
        MergedConcat(rest);
        ConcatAppend([runs[0]], Merged(rest));
        ConcatAppend([runs[0]], rest);
      } else {
        var close := CloseAt(runs);
        if close.Some? {
          var m := close.value;
          MergedConcatStep(runs, m);
        }
      }
    }
  }

  /** The inductive step of MergedConcat for a merge that closes at m. */
  lemma {:induction false} MergedConcatStep(runs: seq<string>, m: nat)
    requires |runs| > 0 && Contains(runs[0], Open) && CloseAt(runs) == Some(m)
    ensures Concat(Merged(runs)) == Concat(runs)
    decreases |runs|, 0
  {
    var text := Concat(runs[..m]);
    var head := [text] + Blanks(m - 1);
    var rest := runs[m..];
    assert Merged(runs) == head + Merged(rest);
    ConcatAppend(head, Merged(rest));
    HeadConcat(text, m - 1);
    MergedConcat(rest);
    assert runs[..m] + rest == runs;
    ConcatAppend(runs[..m], rest);
  }

  /** A merged run followed by the blanked runs it absorbed reads as the merged run. */
  lemma HeadConcat(text: string, n: nat)
    ensures Concat([text] + Blanks(n)) == text
  {
    ConcatAppend([text], Blanks(n));
    ConcatSingle(text);
    ConcatEmpty(Blanks(n));
  }

  /** Runs without an opening token are passed over unchanged. */
  lemma {:induction false} MergedSkipsPlainPrefix(plain: seq<string>, rest: seq<string>)
    requires forall k :: 0 <= k < |plain| ==> !Contains(plain[k], Open)
    ensures Merged(plain + rest) == plain + Merged(rest)
    decreases |plain|
  {
    if plain != [] {
      var whole := plain + rest;
      assert whole[0] == plain[0] && whole[1..] == plain[1..] + rest;
      assert Merged(whole) == [plain[0]] + Merged(whole[1..]);
      MergedSkipsPlainPrefix(plain[1..], rest);
      assert Merged(whole) == [plain[0]] + (plain[1..] + Merged(rest));
      assert [plain[0]] + (plain[1..] + Merged(rest)) == plain + Merged(rest);
    } else {
      assert plain + rest == rest;
    }
  }

  /** If no run contains `{{`, merging changes no text. */
  lemma MergedWithoutOpen(runs: seq<string>)
    requires forall k :: 0 <= k < |runs| ==> !Contains(runs[k], Open)
    ensures Merged(runs) == runs
  {
    MergedSkipsPlainPrefix(runs, []);
    assert runs + [] == runs;
  }

  /** CloseAt finds exactly the first index whose prefix text closes. */
  lemma CloseAtFirst(runs: seq<string>, m: nat)
    requires 1 <= m <= |runs| && ClosedBy(runs, m)
    requires forall x :: 1 <= x < m ==> !ClosedBy(runs, x)
    ensures CloseAt(runs) == Some(m)
  {
    if CloseAt(runs).None? {
      ClosedPrefix(runs, m);
    }
  }

  /**
   * One successful merge step: run 0 opens, m is the first index at which
   * runs[0..m] contains `}}`; run 0 becomes that text, runs 1..m-1 become
   * empty, and the scan resumes at m on the untouched runs.
   */
  lemma MergeStep(runs: seq<string>, m: nat)
    requires |runs| > 0 && Contains(runs[0], Open)
    requires 1 <= m <= |runs| && ClosedBy(runs, m)
    requires forall x :: 1 <= x < m ==> !ClosedBy(runs, x)
    ensures Merged(runs) == [Concat(runs[..m])] + Blanks(m - 1) + Merged(runs[m..])
  {
    CloseAtFirst(runs, m);
  }

  /**
   * An opening run whose `}}` never comes stops the scan: this run and all
   * later runs keep their text.
   */
  lemma MergedUnclosed(runs: seq<string>)
    requires |runs| > 0 && Contains(runs[0], Open)
    requires !Contains(Concat(runs), Close)
    ensures Merged(runs) == runs
  {
    var c := CloseAt(runs);
    if c.Some? {
      ClosedPrefix(runs, c.value);
    }
  }

  /** A run that opens and closes is kept; the empty runs after it are passed over. */
  lemma MergedFixedPoint(c: string, n: nat, tail: seq<string>)
    requires Contains(c, Open) && Contains(c, Close)
    ensures Merged([c] + Blanks(n) + tail) == [c] + Blanks(n) + Merged(tail)
  {
    var rest := Blanks(n) + tail;
    AppendAssoc([c], Blanks(n), tail);
    AppendAssoc([c], Blanks(n), Merged(tail));
    var q := [c] + rest;
    SplitAppend([c], rest);
    assert Concat([c]) == c by {
      assert [c][..0] == [];
    }
    assert ClosedBy(q, 1);
    MergeStep(q, 1);
    EmptyHasNoToken(Open);
    MergedSkipsPlainPrefix(Blanks(n), tail);
  }

  /** Runs that each hold both an opening and a closing token are left as they are. */
  lemma {:induction false} MergedKeepsDelimitedRuns(runs: seq<string>)
    requires forall k :: 0 <= k < |runs| ==> Contains(runs[k], Open) && Contains(runs[k], Close)
    ensures Merged(runs) == runs
    decreases |runs|
  {
    if runs != [] {
      MergedFixedPoint(runs[0], 0, runs[1..]);
      assert [runs[0]] + Blanks(0) + runs[1..] == runs;
      MergedKeepsDelimitedRuns(runs[1..]);
    }
  }

  /** Merging twice is merging once. */
  lemma {:induction false} MergedIdempotent(runs: seq<string>)
    ensures Merged(Merged(runs)) == Merged(runs)
    decreases |runs|
  {
    if runs != [] {
      if !Contains(runs[0], Open) {
        MergedIdempotent(runs[1..]);
        var q := Merged(runs);
        assert q == [runs[0]] + Merged(runs[1..]);
        assert q[1..] == Merged(runs[1..]);
      } else {
        var close := CloseAt(runs);
        if close.Some? {
          var m := close.value;
          assert ClosedBy(runs, m);
          // the merged run still opens, and closes on its own
          ConcatFront(runs, m);
          ContainsAppendRight(runs[0], Concat(runs[1..m]), Open);
          MergedFixedPoint(Concat(runs[..m]), m - 1, Merged(runs[m..]));
          MergedIdempotent(runs[m..]);
        }
      }
    }
  }

  /**
   * The scan invariant of the merger: the runs before the cursor i are
   * final, and the runs from i are untouched.
   */
  ghost predicate ScanInvariant(orig: seq<string>, now: seq<string>, i: nat)
  {
    i <= |orig| == |now| && now[i..] == orig[i..] && now[..i] + Merged(orig[i..]) == Merged(orig)
  }

  /** The scan passes over a run without an opening token. */
  lemma ScanPlain(orig: seq<string>, now: seq<string>, i: nat)
    requires ScanInvariant(orig, now, i) && i < |now| && !Contains(now[i], Open)
    ensures ScanInvariant(orig, now, i + 1)
  {
    var suffix := orig[i..];
    assert suffix == [now[i]] + suffix[1..];
    assert orig[i + 1..] == suffix[1..];
    MergedSkipsPlainPrefix([now[i]], suffix[1..]);
    assert now[..i + 1] == now[..i] + [now[i]];
    AppendAssoc(now[..i], [now[i]], Merged(suffix[1..]));
  }

  /** A successful merge at i: the scan resumes at j. */
  lemma ScanMerged(orig: seq<string>, before: seq<string>, now: seq<string>, i: nat, j: nat)
    requires ScanInvariant(orig, before, i) && i < j <= |before| && Contains(before[i], Open)
    requires ClosedBy(before[i..], j - i)
    requires forall x :: 1 <= x < j - i ==> !ClosedBy(before[i..], x)
    requires now == before[..i] + [Concat(before[i..j])] + Blanks(j - i - 1) + before[j..]
    ensures ScanInvariant(orig, now, j)
  {
    var suffix := orig[i..];
    var m := j - i;
    assert suffix[..m] == before[i..j];
    assert suffix[m..] == orig[j..] == before[j..];
    var head := [Concat(suffix[..m])] + Blanks(m - 1);
    MergeStep(suffix, m);
    AppendAssoc(before[..i], [Concat(suffix[..m])], Blanks(m - 1));
    AppendAssoc(before[..i], head, Merged(suffix[m..]));
    SplitAppend(before[..i] + head, before[j..]);
  }

  /** An opening run that never closes: the scan stops with the runs final. */
  lemma ScanStops(orig: seq<string>, now: seq<string>, i: nat)
    requires ScanInvariant(orig, now, i) && i < |now| && Contains(now[i], Open)
    requires !Contains(Concat(now[i..]), Close)
    ensures now == Merged(orig)
  {
    MergedUnclosed(orig[i..]);
    assert now == now[..i] + now[i..];
  }

  lemma SplitAppend(a: seq<string>, b: seq<string>)
    ensures (a + b)[..|a|] == a && (a + b)[|a|..] == b
  {
  }

  lemma AppendAssoc(a: seq<string>, b: seq<string>, c: seq<string>)
    ensures a + b + c == a + (b + c)
  {
  }

  /**
   * The inner scan of the merger: starting from the opening run i, append
   * the texts of the following runs until the buffer contains `}}` or the
   * runs run out.  Returns the buffer and the cursor j after the last run
   * absorbed.
   */
  method AbsorbUntilClose(runs: array<string>, i: nat) returns (merged: string, j: nat)
    requires i < runs.Length
    ensures i + 1 <= j <= runs.Length
    ensures merged == Concat(runs[i..j])
    ensures forall x :: 1 <= x < j - i ==> !ClosedBy(runs[i..], x)
    ensures Contains(merged, Close) <==> ClosedBy(runs[i..], j - i)
    ensures !Contains(merged, Close) ==> j == runs.Length
  {
    ghost var suffix := runs[i..];
    merged := runs[i];
    j := i + 1;
    assert suffix[..1] == [merged];
    assert Concat([merged]) == Concat([]) + merged;
    while j < runs.Length && !Contains(merged, Close)
      invariant i + 1 <= j <= runs.Length
      invariant merged == Concat(suffix[..j - i])
      invariant forall x :: 1 <= x < j - i ==> !ClosedBy(suffix, x)
    {
      assert suffix[..j + 1 - i][..j - i] == suffix[..j - i];
      merged := merged + runs[j];
      j := j + 1;
    }
    assert suffix[..j - i] == runs[i..j];
  }

  /** Empties the texts of runs[from..to]; the runs themselves stay in place. */
  method BlankRuns(runs: array<string>, from: nat, to: nat)
    requires from <= to <= runs.Length
    modifies runs
    ensures runs[..] == old(runs[..from]) + Blanks(to - from) + old(runs[to..])
  {
    var k := from;
    while k < to
      invariant from <= k <= to
      invariant runs[..] == old(runs[..from]) + Blanks(k - from) + old(runs[k..])
    {
      runs[k] := "";
      k := k + 1;
    }
  }

  /**
   * The body of the outer scan for an opening run i: absorb the following
   * runs up to the closing token; on success write the buffer into run i,
   * empty the absorbed runs and return the resumption point j; otherwise
   * change nothing and report that the scan stops.
   */
  method MergeOpenRun(runs: array<string>, i: nat) returns (closed: bool, j: nat)
    requires i < runs.Length
    modifies runs
    ensures i < j <= runs.Length
    ensures closed ==> ClosedBy(old(runs[i..]), j - i)
    ensures closed ==> forall x :: 1 <= x < j - i ==> !ClosedBy(old(runs[i..]), x)
    ensures closed ==> runs[..] == old(runs[..i]) + [Concat(old(runs[i..j]))] + Blanks(j - i - 1) + old(runs[j..])
    ensures !closed ==> runs[..] == old(runs[..]) && !Contains(Concat(runs[i..]), Close)
  {
    var merged;
    merged, j := AbsorbUntilClose(runs, i);
    closed := Contains(merged, Close);
    if closed {
      runs[i] := merged;
      BlankRuns(runs, i + 1, j);
    } else {
      assert runs[i..j] == runs[i..];
    }
  }

  /**
   * The merger, in place on the runs of one paragraph: same branches, same
   * cursors i and j, same buffer `merged` as the source.
   */
  method MergePlaceholderRuns(runs: array<string>)
    modifies runs
    ensures runs[..] == Merged(old(runs[..]))
  {
    ghost var orig := runs[..];
    var i := 0;
    while i < runs.Length
      invariant ScanInvariant(orig, runs[..], i)
    {
      if Contains(runs[i], Open) {
        ghost var before := runs[..];
        var closed, j := MergeOpenRun(runs, i);
        if closed {
          ScanMerged(orig, before, runs[..], i, j);
          i := j;
        } else {
          ScanStops(orig, runs[..], i);
          return;
        }
      } else {
        ScanPlain(orig, runs[..], i);
        i := i + 1;
      }
    }
    assert runs[..] == runs[..i] && orig[i..] == [];
  }
}
