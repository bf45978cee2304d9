/**
  Turning free text into skill names, as `parse_skills` does: commas (ASCII and
  full-width) become spaces, every run of whitespace becomes one space, the text
  is split on whitespace and each piece is stripped, dropping empty pieces.

  The reference meaning, `Words`, is the sequence of maximal runs of characters
  that are neither whitespace nor a comma; `ParseSkills` is proved equal to it.
*/
module Tokenizer {

  /** A character Python's `str.isspace` accepts; `\s` in a `str` pattern matches the same set. */
  predicate IsWhitespace(c: char) {
    c == ' ' || ('\t' <= c <= '\r') || ('\U{1C}' <= c <= '\U{1F}')
    || c == '\U{85}' || c == '\U{A0}' || c == '\U{1680}'
    || ('\U{2000}' <= c <= '\U{200A}') || c == '\U{2028}' || c == '\U{2029}'
    || c == '\U{202F}' || c == '\U{205F}' || c == '\U{3000}'
  }

  /** The two characters `[,，]` matches: ASCII comma and full-width comma U+FF0C. */
  predicate IsComma(c: char) {
    c == ',' || c == '\U{FF0C}'
  }

  /** A character that ends a skill name. */
  predicate IsSeparator(c: char) {
    IsWhitespace(c) || IsComma(c)
  }

  // ---------------------------------------------------------------------------
  // The three text rewrites of parse_skills
  // ---------------------------------------------------------------------------

  /** `re.sub(r'[,，]', ' ', s)`: no comma is left, exactly the separators become
      whitespace, and every other character stays where it was. */
  function ReplaceCommas(s: string): (r: string)
    ensures |r| == |s|
    ensures forall i :: 0 <= i < |r| ==> !IsComma(r[i])
    ensures forall i :: 0 <= i < |s| ==> (IsWhitespace(r[i]) <==> IsSeparator(s[i]))
    ensures forall i :: 0 <= i < |s| && !IsComma(s[i]) ==> r[i] == s[i]
  {
    seq(|s|, i requires 0 <= i < |s| => if IsComma(s[i]) then ' ' else s[i])
  }

  /** `s.lstrip()`: the longest suffix of `s` that does not start with whitespace. */
  function TrimStart(s: string): (r: string)
    ensures |r| <= |s| && r == s[|s| - |r|..]
    ensures r == [] || !IsWhitespace(r[0])
    ensures forall i :: 0 <= i < |s| - |r| ==> IsWhitespace(s[i])
  {
    if s != [] && IsWhitespace(s[0]) then TrimStart(s[1..]) else s
  }

  /** `s.rstrip()`: the longest prefix of `s` that does not end with whitespace. */
  function TrimEnd(s: string): (r: string)
    ensures |r| <= |s| && r == s[..|r|]
    ensures r == [] || !IsWhitespace(r[|r| - 1])
    ensures forall i :: |r| <= i < |s| ==> IsWhitespace(s[i])
  {
    if s != [] && IsWhitespace(s[|s| - 1]) then TrimEnd(s[..|s| - 1]) else s
  }

  /** `s.strip()`: empty exactly when `s` is all whitespace; otherwise it neither
      starts nor ends with whitespace and is what is left of `s` between two
      whitespace-only ends. */
  function Strip(s: string): (r: string)
    ensures r == [] <==> forall i :: 0 <= i < |s| ==> IsWhitespace(s[i])
    ensures r != [] ==> !IsWhitespace(r[0]) && !IsWhitespace(r[|r| - 1])
  {
    TrimEnd(TrimStart(s))
  }

  /** `re.sub(r'\s+', ' ', s)`: every maximal run of whitespace becomes one space,
      so the only whitespace left is ' ' and no two whitespace characters touch. */
  function CollapseWhitespace(s: string): (r: string)
    ensures |r| <= |s|
    ensures r == [] <==> s == []
    ensures r != [] ==> (IsWhitespace(r[0]) <==> IsWhitespace(s[0]))
    ensures forall i :: 0 <= i < |r| && IsWhitespace(r[i]) ==> r[i] == ' '
    ensures forall i :: 0 <= i < |r| - 1 ==> !(IsWhitespace(r[i]) && IsWhitespace(r[i + 1]))
    decreases |s|
  {
    if s == [] then []
    else if IsWhitespace(s[0]) then [' '] + CollapseWhitespace(TrimStart(s))
    else [s[0]] + CollapseWhitespace(s[1..])
  }

  // ---------------------------------------------------------------------------
  // Splitting
  // ---------------------------------------------------------------------------

  /** The maximal runs of characters of `s` that `isSep` rejects, in order;
      with `isSep == IsWhitespace` this is Python's `str.split()`. */
  function SplitOn(s: string, isSep: char -> bool): (r: seq<string>)
    ensures s != [] && !isSep(s[0]) ==> r != []
    ensures forall i :: 0 <= i < |r| ==> r[i] != []
    ensures forall i, j :: 0 <= i < |r| && 0 <= j < |r[i]| ==> !isSep(r[i][j])
    decreases |s|
  {
    if s == [] then []
    else
      var rest := SplitOn(s[1..], isSep);
      if isSep(s[0]) then rest
      else if |s| > 1 && !isSep(s[1]) then [[s[0]] + rest[0]] + rest[1..]
      else [[s[0]]] + rest
  }

  /** The skill names in `s`: the maximal runs of non-separator characters. */
  function Words(s: string): seq<string> {
    SplitOn(s, IsSeparator)
  }

  /** `[t.strip() for t in ts if t.strip()]` */
  function StripEach(ts: seq<string>): seq<string> {
    if ts == [] then []
    else
      var h := Strip(ts[0]);
      (if h != [] then [h] else []) + StripEach(ts[1..])
  }

  /** `parse_skills(text)`: the skill names of `text`, each non-empty and free of
      whitespace and commas, which are exactly `Words(text)`. */
  function ParseSkills(text: string): (skills: seq<string>)
    ensures skills == Words(text)
    ensures forall i :: 0 <= i < |skills| ==> skills[i] != []
    ensures forall i, j :: 0 <= i < |skills| && 0 <= j < |skills[i]| ==> !IsSeparator(skills[i][j])
  {
    var spaced := ReplaceCommas(text);
    var collapsed := CollapseWhitespace(spaced);
    var tokens := SplitOn(collapsed, IsWhitespace);
    SplitOnCollapse(spaced);
    SplitOnReplaceCommas(text);
    StripEachOfClean(tokens);
    StripEach(tokens)
  }

  // ---------------------------------------------------------------------------
  // Helpers for stating order and contents
  // ---------------------------------------------------------------------------

  /** The tokens glued together, `"".join(ts)`. */
  function Concat(ts: seq<string>): string {
    if ts == [] then [] else ts[0] + Concat(ts[1..])
  }

  /** The characters of `s` that `isSep` rejects, in order. */
  function Kept(s: string, isSep: char -> bool): string {
    if s == [] then [] else (if isSep(s[0]) then [] else [s[0]]) + Kept(s[1..], isSep)
  }

  /** `" ".join(ts)` */
  function JoinSpaces(ts: seq<string>): string {
    if ts == [] then []
    else if |ts| == 1 then ts[0]
    else ts[0] + [' '] + JoinSpaces(ts[1..])
  }

  /** Every token is non-empty and contains no separator. */
  predicate CleanTokens(ts: seq<string>, isSep: char -> bool) {
    forall i :: 0 <= i < |ts| ==> ts[i] != [] && forall j :: 0 <= j < |ts[i]| ==> !isSep(ts[i][j])
  }

  // ---------------------------------------------------------------------------
  // Lemmas
  // ---------------------------------------------------------------------------

  /** Stripping and dropping empty pieces does nothing to whitespace-free, non-empty tokens. */
  lemma {:induction false} StripEachOfClean(ts: seq<string>)
    requires CleanTokens(ts, IsWhitespace)
    ensures StripEach(ts) == ts
  {
    if ts != [] {
      var t := ts[0];
      assert TrimStart(t) == t;
      assert TrimEnd(t) == t;
      StripEachOfClean(ts[1..]);
    }
  }

  /** Leading whitespace never changes the result of a whitespace split. */
  lemma {:induction false} SplitOnTrimStart(s: string)
    ensures SplitOn(TrimStart(s), IsWhitespace) == SplitOn(s, IsWhitespace)
  {
    if s != [] && IsWhitespace(s[0]) {
      SplitOnTrimStart(s[1..]);
    }
  }

  /** Collapsing whitespace runs does not change the whitespace split. */
  lemma {:induction false} SplitOnCollapse(s: string)
    ensures SplitOn(CollapseWhitespace(s), IsWhitespace) == SplitOn(s, IsWhitespace)
    decreases |s|
  {
    if s == [] {
    } else if IsWhitespace(s[0]) {
      var t := TrimStart(s);
      var c := CollapseWhitespace(t);
      SplitOnCollapse(t);
      SplitOnTrimStart(s);
      assert ([' '] + c)[1..] == c;
    } else {
      var c := CollapseWhitespace(s[1..]);
      SplitOnCollapse(s[1..]);
      assert ([s[0]] + c)[1..] == c;
    }
  }

  /** Splitting on whitespace after the commas became spaces is splitting on separators. */
  lemma {:induction false} SplitOnReplaceCommas(s: string)
    ensures SplitOn(ReplaceCommas(s), IsWhitespace) == SplitOn(s, IsSeparator)
  {
    if s != [] {
      var r := ReplaceCommas(s);
      assert r[1..] == ReplaceCommas(s[1..]);
      SplitOnReplaceCommas(s[1..]);
    }
  }

  /** A clean token followed by nothing or by a separator is split off whole. */
  lemma {:induction false} SplitOnToken(t: string, x: string, isSep: char -> bool)
    requires t != [] && forall j :: 0 <= j < |t| ==> !isSep(t[j])
    requires x == [] || isSep(x[0])
    ensures SplitOn(t + x, isSep) == [t] + SplitOn(x, isSep)
    decreases |t|
  {
    var s := t + x;
    assert s[1..] == t[1..] + x;
    if |t| == 1 {
      assert s[1..] == x;
      assert [s[0]] == t;
    } else {
      SplitOnToken(t[1..], x, isSep);
      var rest := SplitOn(s[1..], isSep);
      assert rest[0] == t[1..] && rest[1..] == SplitOn(x, isSep);
      assert [s[0]] + t[1..] == t;
    }
  }

  /** The split of the concatenated tokens is the tokens' own characters, in order. */
  lemma {:induction false} SplitOnContents(s: string, isSep: char -> bool)
    ensures Concat(SplitOn(s, isSep)) == Kept(s, isSep)
    decreases |s|
  {
    if s != [] {
      SplitOnContents(s[1..], isSep);
      var rest := SplitOn(s[1..], isSep);
      if !isSep(s[0]) && |s| > 1 && !isSep(s[1]) {
        var r := [[s[0]] + rest[0]] + rest[1..];
        assert r[1..] == rest[1..];
        assert Concat(rest) == rest[0] + Concat(rest[1..]);
      } else if !isSep(s[0]) {
        assert ([[s[0]]] + rest)[1..] == rest;
      }
    }
  }

  /** Splitting clean tokens joined by single spaces gives the tokens back. */
  lemma {:induction false} SplitOnJoinSpaces(ts: seq<string>, isSep: char -> bool)
    requires isSep(' ')
    requires CleanTokens(ts, isSep)
    ensures SplitOn(JoinSpaces(ts), isSep) == ts
  {
    if |ts| == 1 {
      SplitOnToken(ts[0], [], isSep);
      assert ts[0] + [] == ts[0];
    } else if |ts| > 1 {
      var rest := JoinSpaces(ts[1..]);
      SplitOnToken(ts[0], [' '] + rest, isSep);
      assert ts[0] + [' '] + rest == ts[0] + ([' '] + rest);
      assert ([' '] + rest)[1..] == rest;
      SplitOnJoinSpaces(ts[1..], isSep);
    }
  }

  /** A line that is all whitespace yields no skill names. */
  lemma {:induction false} BlankHasNoWords(s: string)
    requires forall i :: 0 <= i < |s| ==> IsWhitespace(s[i])
    ensures ParseSkills(s) == []
  {
    if s != [] {
      BlankHasNoWords(s[1..]);
    }
  }

  /** parse_skills keeps every non-separator character of the text, in input order,
      and nothing else. */
  lemma ParseSkillsContents(text: string)
    ensures Concat(ParseSkills(text)) == Kept(text, IsSeparator)
  {
    SplitOnContents(text, IsSeparator);
  }

  /** Parsing clean skill names joined by single spaces gives the same names back. */
  lemma ParseSkillsJoinSpaces(skills: seq<string>)
    requires CleanTokens(skills, IsSeparator)
    ensures ParseSkills(JoinSpaces(skills)) == skills
  {
    SplitOnJoinSpaces(skills, IsSeparator);
  }

  /** Re-parsing the parsed names joined by single spaces gives the same list. */
  lemma ParseSkillsRoundTrip(text: string)
    ensures ParseSkills(JoinSpaces(ParseSkills(text))) == ParseSkills(text)
  {
    ParseSkillsJoinSpaces(ParseSkills(text));
  }

}
