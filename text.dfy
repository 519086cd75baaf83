/**
 * Plain string operations used by the renderer: substring containment
 * (Python's `in` on str) and the concatenation of a list of run texts.
 */
module Text {

  /** The opening and closing tokens of a placeholder. */
  const Open: string := "{{"
  const Close: string := "}}"

  /** `pat` occurs in `text` at position `i`. */
  ghost predicate OccursAt(text: string, pat: string, i: int)
  {
    0 <= i && i + |pat| <= |text| && text[i..i + |pat|] == pat
  }

  /** Python's `pat in text`: plain substring search. */
  function Contains(text: string, pat: string): (b: bool)
    ensures pat == [] ==> b
    ensures b ==> |pat| <= |text|
    decreases |text|
  {
    |pat| <= |text| && (text[..|pat|] == pat || Contains(text[1..], pat))
  }

  /** `Contains` is exactly "occurs at some position". */
  lemma {:induction false} ContainsIffOccurs(text: string, pat: string)
    ensures Contains(text, pat) <==> exists i :: OccursAt(text, pat, i)
    decreases |text|
  {
    if |pat| <= |text| {
      // every occurrence is either at 0 or an occurrence in the tail
      forall i | OccursAt(text, pat, i)
        ensures (i == 0 && text[..|pat|] == pat) || OccursAt(text[1..], pat, i - 1)
      {
        if i > 0 {
          assert text[1..][i - 1..i - 1 + |pat|] == text[i..i + |pat|];
        }
      }
      if text[..|pat|] == pat {
        assert OccursAt(text, pat, 0);
      } else {
        ContainsIffOccurs(text[1..], pat);
        if Contains(text[1..], pat) {
          var i :| OccursAt(text[1..], pat, i);
          assert text[i + 1..i + 1 + |pat|] == text[1..][i..i + |pat|];
          assert OccursAt(text, pat, i + 1);
        }
      }
    }
  }

  /** Appending text after a match keeps the match. */
  lemma {:induction false} ContainsAppendRight(a: string, b: string, pat: string)
    requires Contains(a, pat)
    ensures Contains(a + b, pat)
    decreases |a|
  {
    assert (a + b)[..|pat|] == a[..|pat|];
    if a[..|pat|] != pat {
      ContainsAppendRight(a[1..], b, pat);
      assert (a + b)[1..] == a[1..] + b;
    }
  }

  /** Prepending text before a match keeps the match. */
  lemma {:induction false} ContainsAppendLeft(a: string, b: string, pat: string)
    requires Contains(b, pat)
    ensures Contains(a + b, pat)
    decreases |a|
  {
    if a == [] {
      assert a + b == b;
    } else {
      ContainsAppendLeft(a[1..], b, pat);
      assert (a + b)[1..] == a[1..] + b;
    }
  }

  /** The empty string contains no placeholder token. */
  lemma EmptyHasNoToken(pat: string)
    requires |pat| > 0
    ensures !Contains("", pat)
  {
  }

  /** The text of a sequence of runs, in order (Python's `"".join`). */
  function Concat(runs: seq<string>): string
    decreases |runs|
  {
    if runs == [] then "" else Concat(runs[..|runs| - 1]) + runs[|runs| - 1]
  }

  /** A single run's text is the run's text. */
  lemma ConcatSingle(run: string)
    ensures Concat([run]) == run
  {
    assert [run][..0] == [];
  }

  /** Concatenation distributes over appending run lists. */
  lemma {:induction false} ConcatAppend(a: seq<string>, b: seq<string>)
    ensures Concat(a + b) == Concat(a) + Concat(b)
    decreases |b|
  {
    if b == [] {
      assert a + b == a;
    } else {
      var init, last := b[..|b| - 1], b[|b| - 1];
      ConcatAppend(a, init);
      assert (a + b)[..|a + b| - 1] == a + init;
      assert (a + b)[|a + b| - 1] == last;
      assert Concat(a + b) == Concat(a + init) + last;
      assert Concat(b) == Concat(init) + last;
    }
  }

  /** A run list has empty text exactly when every run is empty. */
  lemma {:induction false} ConcatEmpty(runs: seq<string>)
    ensures Concat(runs) == "" <==> forall k :: 0 <= k < |runs| ==> runs[k] == ""
    decreases |runs|
  {
    if runs != [] {
      var init := runs[..|runs| - 1];
      ConcatEmpty(init);
      assert |Concat(runs)| == |Concat(init)| + |runs[|runs| - 1]|;
      assert forall k :: 0 <= k < |init| ==> init[k] == runs[k];
    }
  }
}
