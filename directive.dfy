/**
 * The table directive `{{ table : key }}` recognised by
 * `PPTXRendering.table_data_pattern`, the regular expression
 * \{\{\s*table\s*:\s*([^}\s]+)\s*\}\} searched for in a cell's text.
 *
 * `MatchAt` is an explicit parser for one starting position; because the
 * key excludes `}` and white space, every `\s*` and the key are maximal
 * runs, so no backtracking is needed.  `DirectiveAt` is the declarative
 * reading of the pattern (the text is "{{", spaces, "table", spaces, ":",
 * spaces, key, spaces, "}}"), and the two are proved to agree.
 * `FindDirective` returns the key of the leftmost match, as
 * `re.findall(...)[0]` does.
 */
module Directive {
  import opened Wrappers

  /**
   * White space as Python's `\s` (on str patterns) and `str.strip()` read it:
   * tab through carriage return, the separators U+001C to U+001F, space,
   * U+0085, U+00A0, U+1680, U+2000 to U+200A, U+2028, U+2029, U+202F,
   * U+205F and U+3000.
   */
  predicate IsSpace(c: char)
  {
    '\t' <= c <= '\r' || '\U{1C}' <= c <= ' ' ||
    c == '\U{85}' || c == '\U{A0}' || c == '\U{1680}' || '\U{2000}' <= c <= '\U{200A}' ||
    c == '\U{2028}' || c == '\U{2029}' || c == '\U{202F}' || c == '\U{205F}' || c == '\U{3000}'
  }

  /** A character of the key class [^}\s]. */
  predicate IsKeyChar(c: char)
  {
    !IsSpace(c) && c != '}'
  }

  predicate AllSpace(w: string)
  {
    forall x :: 0 <= x < |w| ==> IsSpace(w[x])
  }

  predicate AllKeyChars(w: string)
  {
    forall x :: 0 <= x < |w| ==> IsKeyChar(w[x])
  }

  /** A captured key: one or more key characters. */
  predicate IsKey(key: string)
  {
    |key| > 0 && AllKeyChars(key)
  }

  /** The first position at or after i that does not hold white space. */
  function SkipSpaces(s: string, i: nat): (j: nat)
    requires i <= |s|
    ensures i <= j <= |s|
    ensures AllSpace(s[i..j])
    ensures j < |s| ==> !IsSpace(s[j])
    decreases |s| - i
  {
    if i < |s| && IsSpace(s[i]) then
      var j := SkipSpaces(s, i + 1);
      assert s[i..j] == [s[i]] + s[i + 1..j];
      j
    else i
  }

  /** The first position at or after i that does not hold a key character. */
  function SkipKey(s: string, i: nat): (j: nat)
    requires i <= |s|
    ensures i <= j <= |s|
    ensures AllKeyChars(s[i..j])
    ensures j < |s| ==> !IsKeyChar(s[j])
    decreases |s| - i
  {
    if i < |s| && IsKeyChar(s[i]) then
      var j := SkipKey(s, i + 1);
      assert s[i..j] == [s[i]] + s[i + 1..j];
      j
    else i
  }

  /** `lit` occurs in `s` at position i. */
  predicate HasAt(s: string, i: nat, lit: string)
  {
    i + |lit| <= |s| && s[i..i + |lit|] == lit
  }

  /**
   * The key of the directive that starts exactly at position i, if any.
   * The parse proceeds in stages, one per literal of the pattern; each
   * stage first skips the white space the pattern allows before it.
   */
  function MatchAt(s: string, i: nat): (r: Option<string>)
    requires i <= |s|
    ensures r.Some? ==> IsKey(r.value)
  {
    if HasAt(s, i, "{{") then MatchTable(s, SkipSpaces(s, i + 2)) else None
  }

  /** The rest of a directive from the word `table` at position a. */
  function MatchTable(s: string, a: nat): (r: Option<string>)
    requires a <= |s|
    ensures r.Some? ==> IsKey(r.value)
  {
    if HasAt(s, a, "table") then MatchColon(s, SkipSpaces(s, a + 5)) else None
  }

  /** The rest of a directive from the colon at position b. */
  function MatchColon(s: string, b: nat): (r: Option<string>)
    requires b <= |s|
    ensures r.Some? ==> IsKey(r.value)
  {
    if HasAt(s, b, ":") then MatchKey(s, SkipSpaces(s, b + 1)) else None
  }

  /** The rest of a directive from the key, which must start at position c. */
  function MatchKey(s: string, c: nat): (r: Option<string>)
    requires c <= |s|
    ensures r.Some? ==> IsKey(r.value)
  {
    var d := SkipKey(s, c);
    if d == c then None else MatchClose(s, c, d)
  }

  /** The key s[c..d], if the closing braces follow it after white space. */
  function MatchClose(s: string, c: nat, d: nat): (r: Option<string>)
    requires c < d <= |s| && AllKeyChars(s[c..d])
    ensures r.Some? ==> IsKey(r.value)
  {
    if HasAt(s, SkipSpaces(s, d), "}}") then Some(s[c..d]) else None
  }

  /** The text of a directive with the given white-space fillers and key. */
  function DirectiveText(w1: string, w2: string, w3: string, key: string, w4: string): string
  {
    "{{" + w1 + "table" + w2 + ":" + w3 + key + w4 + "}}"
  }

  /** The pattern matches at position i of s, capturing `key`. */
  ghost predicate DirectiveAt(s: string, i: nat, key: string)
  {
    exists w1, w2, w3, w4 ::
      AllSpace(w1) && AllSpace(w2) && AllSpace(w3) && AllSpace(w4) && IsKey(key) &&
      HasAt(s, i, DirectiveText(w1, w2, w3, key, w4))
  }

  lemma SliceJoin(s: string, x: nat, y: nat, z: nat)
    requires x <= y <= z <= |s|
    ensures s[x..z] == s[x..y] + s[y..z]
  {
  }

  /** Splits an occurrence of a + b into an occurrence of a followed by one of b. */
  lemma HasAtSplit(s: string, i: nat, a: string, b: string)
    requires HasAt(s, i, a + b)
    ensures HasAt(s, i, a) && HasAt(s, i + |a|, b)
  {
    assert s[i..i + |a|] == (a + b)[..|a|];
    assert s[i + |a|..i + |a| + |b|] == (a + b)[|a|..];
  }

  /** SkipSpaces stops exactly at the end of a maximal run of white space. */
  lemma {:induction false} SkipSpacesAt(s: string, i: nat, j: nat)
    requires i <= j <= |s|
    requires AllSpace(s[i..j])
    requires j < |s| ==> !IsSpace(s[j])
    ensures SkipSpaces(s, i) == j
    decreases j - i
  {
    if i < j {
      assert s[i..j][0] == s[i];
      assert s[i + 1..j] == s[i..j][1..];
      SkipSpacesAt(s, i + 1, j);
    }
  }

  /** SkipKey stops exactly at the end of a maximal run of key characters. */
  lemma {:induction false} SkipKeyAt(s: string, i: nat, j: nat)
    requires i <= j <= |s|
    requires AllKeyChars(s[i..j])
    requires j < |s| ==> !IsKeyChar(s[j])
    ensures SkipKey(s, i) == j
    decreases j - i
  {
    if i < j {
      assert s[i..j][0] == s[i];
      assert s[i + 1..j] == s[i..j][1..];
      SkipKeyAt(s, i + 1, j);
    }
  }

  /** The first character of an occurrence of w is the first character of w. */
  lemma HasAtFirst(s: string, i: nat, w: string)
    requires HasAt(s, i, w) && |w| > 0
    ensures i < |s| && s[i] == w[0]
  {
    assert s[i..i + |w|][0] == s[i];
  }

  /** Joins an occurrence of a and an occurrence of b right after it. */
  lemma HasAtJoin(s: string, i: nat, a: string, b: string)
    requires HasAt(s, i, a) && HasAt(s, i + |a|, b)
    ensures HasAt(s, i, a + b)
  {
    SliceJoin(s, i, i + |a|, i + |a| + |b|);
  }

  /** Occurrences of the parts of a directive, side by side, make a directive. */
  lemma DirectiveFromParts(s: string, i: nat, a: nat, b: nat, c: nat, d: nat, e: nat)
    requires i + 2 <= a && a + 5 <= b && b + 1 <= c <= d <= e && e + 2 <= |s|
    requires HasAt(s, i, "{{") && HasAt(s, a, "table") && HasAt(s, b, ":") && HasAt(s, e, "}}")
    requires AllSpace(s[i + 2..a]) && AllSpace(s[a + 5..b]) && AllSpace(s[b + 1..c])
    requires IsKey(s[c..d]) && AllSpace(s[d..e])
    ensures DirectiveAt(s, i, s[c..d])
  {
    var w1, w2, w3, key, w4 := s[i + 2..a], s[a + 5..b], s[b + 1..c], s[c..d], s[d..e];
    var p1 := "{{" + w1;
    HasAtJoin(s, i, "{{", w1);
    var p2 := p1 + "table";
    HasAtJoin(s, i, p1, "table");
    var p3 := p2 + w2;
    HasAtJoin(s, i, p2, w2);
    var p4 := p3 + ":";
    HasAtJoin(s, i, p3, ":");
    var p5 := p4 + w3;
    HasAtJoin(s, i, p4, w3);
    var p6 := p5 + key;
    HasAtJoin(s, i, p5, key);
    var p7 := p6 + w4;
    HasAtJoin(s, i, p6, w4);
    HasAtJoin(s, i, p7, "}}");
    assert p7 + "}}" == DirectiveText(w1, w2, w3, key, w4);
  }

  // One lemma per stage of the parser, so that each unfolds a single stage.
  lemma OpenStage(s: string, i: nat)
    requires i <= |s| && MatchAt(s, i).Some?
    ensures HasAt(s, i, "{{") && MatchAt(s, i) == MatchTable(s, SkipSpaces(s, i + 2))
  {
  }

  lemma TableStage(s: string, a: nat)
    requires a <= |s| && MatchTable(s, a).Some?
    ensures HasAt(s, a, "table") && MatchTable(s, a) == MatchColon(s, SkipSpaces(s, a + 5))
  {
  }

  lemma ColonStage(s: string, b: nat)
    requires b <= |s| && MatchColon(s, b).Some?
    ensures HasAt(s, b, ":") && MatchColon(s, b) == MatchKey(s, SkipSpaces(s, b + 1))
  {
  }

  lemma KeyStage(s: string, c: nat)
    requires c <= |s| && MatchKey(s, c).Some?
    ensures var d := SkipKey(s, c); c < d && HasAt(s, SkipSpaces(s, d), "}}") && MatchKey(s, c) == Some(s[c..d])
  {
  }

  /** Whatever the parser returns is a match of the pattern at that position. */
  lemma MatchAtSound(s: string, i: nat)
    requires i <= |s| && MatchAt(s, i).Some?
    ensures DirectiveAt(s, i, MatchAt(s, i).value)
  {
    OpenStage(s, i);
    var a := SkipSpaces(s, i + 2);
    TableStage(s, a);
    var b := SkipSpaces(s, a + 5);
    ColonStage(s, b);
    var c := SkipSpaces(s, b + 1);
    KeyStage(s, c);
    var d := SkipKey(s, c);
    var e := SkipSpaces(s, d);
    DirectiveFromParts(s, i, a, b, c, d, e);
  }

  /** An occurrence of a directive's text splits into occurrences of its parts. */
  lemma DirectiveParts(s: string, i: nat, w1: string, w2: string, w3: string, key: string, w4: string,
                       a: nat, b: nat, c: nat, d: nat, e: nat)
    requires HasAt(s, i, DirectiveText(w1, w2, w3, key, w4))
    requires a == i + 2 + |w1| && b == a + 5 + |w2| && c == b + 1 + |w3|
    requires d == c + |key| && e == d + |w4|
    ensures e + 2 <= |s|
    ensures HasAt(s, i, "{{") && HasAt(s, a, "table") && HasAt(s, b, ":") && HasAt(s, e, "}}")
    ensures s[i + 2..a] == w1 && s[a + 5..b] == w2 && s[b + 1..c] == w3
    ensures s[c..d] == key && s[d..e] == w4
  {
    var p1 := "{{" + w1;
    var p2 := p1 + "table";
    var p3 := p2 + w2;
    var p4 := p3 + ":";
    var p5 := p4 + w3;
    var p6 := p5 + key;
    var p7 := p6 + w4;
    assert p7 + "}}" == DirectiveText(w1, w2, w3, key, w4);
    HasAtSplit(s, i, p7, "}}");
    HasAtSplit(s, i, p6, w4);
    HasAtSplit(s, i, p5, key);
    HasAtSplit(s, i, p4, w3);
    HasAtSplit(s, i, p3, ":");
    HasAtSplit(s, i, p2, w2);
    HasAtSplit(s, i, p1, "table");
    HasAtSplit(s, i, "{{", w1);
  }

  /** The parser accepts occurrences of the parts of a directive, side by side. */
  lemma MatchAtFromParts(s: string, i: nat, a: nat, b: nat, c: nat, d: nat, e: nat)
    requires i + 2 <= a && a + 5 <= b && b + 1 <= c <= d <= e && e + 2 <= |s|
    requires HasAt(s, i, "{{") && HasAt(s, a, "table") && HasAt(s, b, ":") && HasAt(s, e, "}}")
    requires AllSpace(s[i + 2..a]) && AllSpace(s[a + 5..b]) && AllSpace(s[b + 1..c])
    requires IsKey(s[c..d]) && AllSpace(s[d..e])
    ensures MatchAt(s, i) == Some(s[c..d])
  {
    HasAtFirst(s, a, "table");
    HasAtFirst(s, b, ":");
    KeyFromParts(s, c, d, e);
    SkipSpacesAt(s, b + 1, c);
    assert MatchColon(s, b) == Some(s[c..d]);
    SkipSpacesAt(s, a + 5, b);
    assert MatchTable(s, a) == Some(s[c..d]);
    SkipSpacesAt(s, i + 2, a);
  }

  /** The key stage of the parser accepts a key followed by white space and `}}`. */
  lemma KeyFromParts(s: string, c: nat, d: nat, e: nat)
    requires c <= d <= e && e + 2 <= |s| && HasAt(s, e, "}}")
    requires IsKey(s[c..d]) && AllSpace(s[d..e])
    ensures MatchKey(s, c) == Some(s[c..d])
  {
    HasAtFirst(s, e, "}}");
    assert s[c..d][0] == s[c];
    if d < e {
      assert s[d..e][0] == s[d];
    }
    SkipSpacesAt(s, d, e);
    assert MatchClose(s, c, d) == Some(s[c..d]);
    SkipKeyAt(s, c, d);
  }

  /** Every match of the pattern at a position is found by the parser, with the same key. */
  lemma MatchAtComplete(s: string, i: nat, key: string)
    requires DirectiveAt(s, i, key)
    ensures i <= |s| && MatchAt(s, i) == Some(key)
  {
    var w1, w2, w3, w4 :|
      AllSpace(w1) && AllSpace(w2) && AllSpace(w3) && AllSpace(w4) && IsKey(key) &&
      HasAt(s, i, DirectiveText(w1, w2, w3, key, w4));
    var a := i + 2 + |w1|;
    var b := a + 5 + |w2|;
    var c := b + 1 + |w3|;
    var d := c + |key|;
    var e := d + |w4|;
    DirectiveParts(s, i, w1, w2, w3, key, w4, a, b, c, d, e);
    MatchAtFromParts(s, i, a, b, c, d, e);
  }

  /** No directive starts at position q of s. */
  ghost predicate NoDirectiveAt(s: string, q: nat)
  {
    forall key :: !DirectiveAt(s, q, key)
  }

  /** The parser fails at i exactly when the pattern does not match at i. */
  lemma MatchAtNone(s: string, i: nat)
    requires i <= |s|
    ensures MatchAt(s, i).None? <==> NoDirectiveAt(s, i)
  {
    if MatchAt(s, i).Some? {
      MatchAtSound(s, i);
    } else {
      forall key ensures !DirectiveAt(s, i, key) {
        if DirectiveAt(s, i, key) {
          MatchAtComplete(s, i, key);
        }
      }
    }
  }

  /** The first position at or after i where the parser finds a directive. */
  function LeftmostMatch(s: string, i: nat): (r: Option<nat>)
    requires i <= |s|
    ensures r.Some? ==> i <= r.value <= |s| && MatchAt(s, r.value).Some?
    ensures forall q :: i <= q <= |s| && (r.None? || q < r.value) ==> MatchAt(s, q).None?
    decreases |s| - i
  {
    if MatchAt(s, i).Some? then Some(i)
    else if i == |s| then None
    else LeftmostMatch(s, i + 1)
  }

  /** The captured key of the leftmost directive in `text` (`findall(...)[0]`). */
  function FindDirective(text: string): (r: Option<string>)
    ensures r.Some? ==> IsKey(r.value)
  {
    match LeftmostMatch(text, 0)
    case None => None
    case Some(p) => MatchAt(text, p)
  }

  /** The leftmost parse is a match of the pattern, and no match starts before it. */
  lemma LeftmostMatchIsLeftmost(text: string, p: nat)
    requires LeftmostMatch(text, 0) == Some(p)
    ensures DirectiveAt(text, p, MatchAt(text, p).value)
    ensures forall q: nat :: q < p ==> NoDirectiveAt(text, q)
  {
    MatchAtSound(text, p);
    forall q: nat | q < p ensures NoDirectiveAt(text, q) {
      MatchAtNone(text, q);
    }
  }

  /** No parse succeeds before the leftmost one. */
  lemma LeftmostFirst(text: string, p: nat, q: nat)
    requires LeftmostMatch(text, 0) == Some(p)
    requires q <= |text| && MatchAt(text, q).Some?
    ensures p <= q
  {
  }

  /** A match with another key than the leftmost one starts after it. */
  lemma OtherKeyMatchesLater(text: string, p: nat, p': nat, key: string)
    requires LeftmostMatch(text, 0) == Some(p) && MatchAt(text, p) != Some(key)
    requires DirectiveAt(text, p', key)
    ensures p < p' && !NoDirectiveAt(text, p)
  {
    MatchAtComplete(text, p', key);
    LeftmostFirst(text, p, p');
    assert p != p';
    MatchAtSound(text, p);
    var k := MatchAt(text, p).value;
    assert DirectiveAt(text, p, k);
  }

  /**
   * FindDirective returns key exactly when the pattern matches with that
   * key at some position p and at no position before p.
   */
  lemma FindDirectiveLeftmost(text: string, key: string)
    ensures FindDirective(text) == Some(key) <==>
      exists p: nat :: p <= |text| && DirectiveAt(text, p, key) &&
        forall q: nat :: q < p ==> NoDirectiveAt(text, q)
  {
    match LeftmostMatch(text, 0)
    case None =>
      forall p: nat | p <= |text| ensures !DirectiveAt(text, p, key) {
        MatchAtNone(text, p);
      }
    case Some(p) =>
      LeftmostMatchIsLeftmost(text, p);
      var k := MatchAt(text, p).value;
      if k != key {
        forall p': nat | p' <= |text| && DirectiveAt(text, p', key)
          ensures exists q: nat :: q < p' && !NoDirectiveAt(text, q)
        {
          OtherKeyMatchesLater(text, p, p', key);
        }
      }
  }

  /** FindDirective finds nothing exactly when the pattern matches nowhere. */
  lemma FindDirectiveNone(text: string)
    ensures FindDirective(text).None? <==> forall p: nat :: p <= |text| ==> NoDirectiveAt(text, p)
  {
    forall q: nat | q <= |text| ensures MatchAt(text, q).None? <==> NoDirectiveAt(text, q) {
      MatchAtNone(text, q);
    }
  }

  /** Python's str.strip(): drop leading and trailing white space. */
  function Strip(s: string): (r: string)
    ensures |r| <= |s|
    ensures r != [] ==> !IsSpace(r[0]) && !IsSpace(r[|r| - 1])
    decreases |s|
  {
    if s == [] then []
    else if IsSpace(s[0]) then Strip(s[1..])
    else if IsSpace(s[|s| - 1]) then Strip(s[..|s| - 1])
    else s
  }

  /** Strip removes leading and trailing white space and nothing else: the result is an infix of s. */
  lemma StripTrims(s: string)
    ensures exists a, b :: 0 <= a <= b <= |s| && Strip(s) == s[a..b] && AllSpace(s[..a]) && AllSpace(s[b..])
  {
    var a, b := StripBounds(s);
  }

  /** The bounds of the infix that Strip keeps. */
  lemma {:induction false} StripBounds(s: string) returns (a: nat, b: nat)
    ensures a <= b <= |s| && Strip(s) == s[a..b] && AllSpace(s[..a]) && AllSpace(s[b..])
    decreases |s|
  {
    if s == [] {
      a, b := 0, 0;
    } else if IsSpace(s[0]) {
      var a', b' := StripBounds(s[1..]);
      a, b := a' + 1, b' + 1;
      SpaceFront(s, a', b');
    } else if IsSpace(s[|s| - 1]) {
      a, b := StripBounds(s[..|s| - 1]);
      SpaceBack(s, a, b);
    } else {
      a, b := 0, |s|;
      assert s[..0] == [] && s[|s|..] == [];
    }
  }

  lemma SpaceFront(s: string, a: nat, b: nat)
    requires s != [] && IsSpace(s[0]) && a <= b <= |s| - 1
    requires AllSpace(s[1..][..a]) && AllSpace(s[1..][b..])
    ensures s[1..][a..b] == s[a + 1..b + 1]
    ensures AllSpace(s[..a + 1]) && AllSpace(s[b + 1..])
  {
    assert s[..a + 1] == [s[0]] + s[1..][..a];
    assert s[b + 1..] == s[1..][b..];
  }

  lemma SpaceBack(s: string, a: nat, b: nat)
    requires s != [] && IsSpace(s[|s| - 1]) && a <= b <= |s| - 1
    requires AllSpace(s[..|s| - 1][..a]) && AllSpace(s[..|s| - 1][b..])
    ensures s[..|s| - 1][a..b] == s[a..b]
    ensures AllSpace(s[..a]) && AllSpace(s[b..])
  {
    assert s[..a] == s[..|s| - 1][..a];
    assert s[b..] == s[..|s| - 1][b..] + [s[|s| - 1]];
  }

  /** A captured key holds no white space, so stripping it changes nothing. */
  lemma StripKey(key: string)
    requires IsKey(key)
    ensures Strip(key) == key
  {
    assert IsKeyChar(key[0]) && IsKeyChar(key[|key| - 1]);
  }
}
