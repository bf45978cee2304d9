/**
  The catalog of cores: the per-line groups read from the core list text and the
  filter that keeps the cores relevant to the target skills
  (`find_optimal_combination`, the loops that build `core_lines` and `valid_cores`).
*/
module Catalog {
  import opened Tokenizer

  /** A skill name, as `parse_skills` produces it. */
  type Skill = string

  /** One core: the skills of one line, the first of which is its primary skill. */
  type Core = seq<Skill>

  // ---------------------------------------------------------------------------
  // Lines
  // ---------------------------------------------------------------------------

  /** `text.split("\n")`: the pieces between newlines, at least one, none holding a newline. */
  function SplitLines(text: string): (lines: seq<string>)
    ensures |lines| >= 1
    ensures forall i, j :: 0 <= i < |lines| && 0 <= j < |lines[i]| ==> lines[i][j] != '\n'
  {
    if text == [] then [[]]
    else
      var rest := SplitLines(text[1..]);
      if text[0] == '\n' then [[]] + rest
      else [[text[0]] + rest[0]] + rest[1..]
  }

  /** `"\n".join(lines)` */
  function JoinLines(lines: seq<string>): string
    requires |lines| >= 1
  {
    if |lines| == 1 then lines[0] else lines[0] + ['\n'] + JoinLines(lines[1..])
  }

  /** Splitting at newlines loses nothing: joining the lines again gives the text back. */
  lemma {:induction false} SplitLinesRoundTrip(text: string)
    ensures JoinLines(SplitLines(text)) == text
  {
    if text != [] {
      var rest := SplitLines(text[1..]);
      SplitLinesRoundTrip(text[1..]);
      if text[0] == '\n' {
        assert ([[]] + rest)[1..] == rest;
      } else if |rest| == 1 {
        assert [text[0]] + rest[0] == text;
      } else {
        var lines := [[text[0]] + rest[0]] + rest[1..];
        assert lines[1..] == rest[1..];
        assert JoinLines(rest) == rest[0] + ['\n'] + JoinLines(rest[1..]);
      }
    }
  }

  // ---------------------------------------------------------------------------
  // Core lines
  // ---------------------------------------------------------------------------

  /** The test a line passes to become a core: not blank, and two or more skills. */
  predicate IsCoreLine(line: string) {
    Strip(line) != [] && |ParseSkills(line)| >= 2
  }

  /** The cores of the given lines, in line order: the skills of each core line. */
  function CoreLines(lines: seq<string>): (cores: seq<Core>)
    ensures |cores| <= |lines|
    ensures forall i :: 0 <= i < |cores| ==> |cores[i]| >= 2
  {
    if lines == [] then []
    else
      var last := lines[|lines| - 1];
      CoreLines(lines[..|lines| - 1]) + (if IsCoreLine(last) then [ParseSkills(last)] else [])
  }

  /** The loop over `cores_text.split("\n")` that appends each core line's skills. */
  method ParseCoreLines(coresText: string) returns (coreLines: seq<Core>)
    ensures coreLines == CoreLines(SplitLines(coresText))
  {
    coreLines := [];
    var lines := SplitLines(coresText);
    for i := 0 to |lines|
      invariant coreLines == CoreLines(lines[..i])
    {
      var line := lines[i];
      NextCoreLines(lines, i);
      if Strip(line) != [] {
        var skills := ParseSkills(line);
        if |skills| >= 2 {
          coreLines := coreLines + [skills];
        }
      }
    }
    assert lines[..|lines|] == lines;
  }

  /** One more line adds that line's core, if it is a core line. */
  lemma NextCoreLines(lines: seq<string>, i: nat)
    requires i < |lines|
    ensures CoreLines(lines[..i + 1])
            == CoreLines(lines[..i]) + (if IsCoreLine(lines[i]) then [ParseSkills(lines[i])] else [])
  {
    assert lines[..i + 1][..i] == lines[..i];
  }

  /** The skills of every line, core line or not. */
  function ParsedLines(lines: seq<string>): (parsed: seq<Core>)
    ensures |parsed| == |lines|
  {
    if lines == [] then []
    else ParsedLines(lines[..|lines| - 1]) + [ParseSkills(lines[|lines| - 1])]
  }

  /** A blank line has no skills, so the blank-line test drops nothing that the
      two-skill test would keep: the cores are exactly the parsed lines with two or
      more skills, in order, each as often as such a line occurs. */
  lemma {:induction false} CoreLinesAreLongLines(lines: seq<string>)
    ensures Subsequence(CoreLines(lines), ParsedLines(lines))
    ensures forall c :: multiset(CoreLines(lines))[c]
                        == if |c| >= 2 then multiset(ParsedLines(lines))[c] else 0
  {
    if lines != [] {
      var init := lines[..|lines| - 1];
      var skills := ParseSkills(lines[|lines| - 1]);
      CoreLinesAreLongLines(init);
      CoreLinesLast(lines);
      SubsequenceExtend(CoreLines(init), ParsedLines(init), skills, |skills| >= 2);
    }
  }

  /** The last line's contribution, with the blank-line test folded into the two-skill test. */
  lemma CoreLinesLast(lines: seq<string>)
    requires lines != []
    ensures var init := lines[..|lines| - 1];
            var skills := ParseSkills(lines[|lines| - 1]);
            && ParsedLines(lines) == ParsedLines(init) + [skills]
            && CoreLines(lines) == CoreLines(init) + (if |skills| >= 2 then [skills] else [])
  {
    var init := lines[..|lines| - 1];
    var last := lines[|lines| - 1];
    var skills := ParseSkills(last);
    IsCoreLineIsLong(last);
  }

  /** A blank line has no skills, so a line is a core line exactly when it has two or more. */
  lemma IsCoreLineIsLong(line: string)
    ensures IsCoreLine(line) <==> |ParseSkills(line)| >= 2
  {
    if Strip(line) == [] {
      BlankHasNoWords(line);
    }
  }

  // ---------------------------------------------------------------------------
  // Valid cores
  // ---------------------------------------------------------------------------

  /** `sum(1 for skill in core if skill in targets)`: how many of the core's skill
      occurrences are targets (a list lookup, duplicates counted). */
  function TargetHits(core: Core, targets: seq<Skill>): (hits: nat)
    ensures hits <= |core|
  {
    if core == [] then 0
    else TargetHits(core[..|core| - 1], targets) + (if core[|core| - 1] in targets then 1 else 0)
  }

  /** The filter's test: two or more target occurrences. */
  predicate IsValidCore(core: Core, targets: seq<Skill>) {
    TargetHits(core, targets) >= 2
  }

  /** The cores that pass the filter, in catalog order. */
  function ValidCores(cores: seq<Core>, targets: seq<Skill>): (valid: seq<Core>)
    ensures |valid| <= |cores|
    ensures forall i :: 0 <= i < |valid| ==> IsValidCore(valid[i], targets)
  {
    if cores == [] then []
    else
      var last := cores[|cores| - 1];
      ValidCores(cores[..|cores| - 1], targets) + (if IsValidCore(last, targets) then [last] else [])
  }

  /** The loop over `enumerate(core_lines)` that appends each valid core. */
  method FilterValidCores(coreLines: seq<Core>, targets: seq<Skill>) returns (valid: seq<Core>)
    ensures valid == ValidCores(coreLines, targets)
  {
    valid := [];
    for i := 0 to |coreLines|
      invariant valid == ValidCores(coreLines[..i], targets)
    {
      var core := coreLines[i];
      assert coreLines[..i + 1][..i] == coreLines[..i];
      var targetCount := TargetHits(core, targets);
      if targetCount >= 2 {
        valid := valid + [core];
      }
    }
    assert coreLines[..|coreLines|] == coreLines;
  }

  /** A valid core holds two skills, so it has a primary skill and a second one. */
  lemma ValidCoresAreLong(cores: seq<Core>, targets: seq<Skill>)
    ensures forall i :: 0 <= i < |ValidCores(cores, targets)| ==> |ValidCores(cores, targets)[i]| >= 2
  {
  }

  /** The filter keeps the order of the catalog, and keeps each valid core exactly
      as often as the catalog holds it and no other core at all. */
  lemma ValidCoresAreValidSubsequence(cores: seq<Core>, targets: seq<Skill>)
    ensures Subsequence(ValidCores(cores, targets), cores)
    ensures forall c :: multiset(ValidCores(cores, targets))[c]
                        == if IsValidCore(c, targets) then multiset(cores)[c] else 0
  {
    ValidCoresInOrder(cores, targets);
    ValidCoresCounts(cores, targets);
  }

  /** The filter output is a subsequence of the catalog. */
  lemma {:induction false} ValidCoresInOrder(cores: seq<Core>, targets: seq<Skill>)
    ensures Subsequence(ValidCores(cores, targets), cores)
  {
    if cores != [] {
      var init := cores[..|cores| - 1];
      var last := cores[|cores| - 1];
      ValidCoresInOrder(init, targets);
      assert cores == init + [last];
      SubsequenceExtend(ValidCores(init, targets), init, last, IsValidCore(last, targets));
    }
  }

  /** The filter keeps every copy of a valid core and no copy of an invalid one. */
  lemma {:induction false} ValidCoresCounts(cores: seq<Core>, targets: seq<Skill>)
    ensures forall c :: multiset(ValidCores(cores, targets))[c]
                        == if IsValidCore(c, targets) then multiset(cores)[c] else 0
  {
    if cores != [] {
      var init := cores[..|cores| - 1];
      var last := cores[|cores| - 1];
      ValidCoresCounts(init, targets);
      assert cores == init + [last];
      assert multiset(cores) == multiset(init) + multiset{last};
    }
  }

  /** A catalog of valid cores passes the filter unchanged. */
  lemma {:induction false} ValidCoresOfValid(cores: seq<Core>, targets: seq<Skill>)
    requires forall i :: 0 <= i < |cores| ==> IsValidCore(cores[i], targets)
    ensures ValidCores(cores, targets) == cores
  {
    if cores != [] {
      ValidCoresOfValid(cores[..|cores| - 1], targets);
      assert cores == cores[..|cores| - 1] + [cores[|cores| - 1]];
    }
  }

  /** Filtering is idempotent: filtering the filtered catalog again changes nothing. */
  lemma ValidCoresIdempotent(cores: seq<Core>, targets: seq<Skill>)
    ensures ValidCores(ValidCores(cores, targets), targets) == ValidCores(cores, targets)
  {
    ValidCoresOfValid(ValidCores(cores, targets), targets);
  }

  // ---------------------------------------------------------------------------
  // Order preservation
  // ---------------------------------------------------------------------------

  /** `a` is `b` with some elements left out, the rest in their order. */
  predicate Subsequence<T(==)>(a: seq<T>, b: seq<T>)
    decreases |b|
  {
    if a == [] then true
    else if b == [] then false
    else (a[|a| - 1] == b[|b| - 1] && Subsequence(a[..|a| - 1], b[..|b| - 1]))
         || Subsequence(a, b[..|b| - 1])
  }

  /** Appending one element to `b`, and possibly to `a` as well, keeps `a` a subsequence of `b`. */
  lemma SubsequenceExtend<T>(a: seq<T>, b: seq<T>, x: T, keep: bool)
    requires Subsequence(a, b)
    ensures Subsequence(a + (if keep then [x] else []), b + [x])
  {
    var b' := b + [x];
    assert b'[..|b'| - 1] == b;
    if keep {
      var a' := a + [x];
      assert a'[..|a'| - 1] == a;
      assert a'[|a'| - 1] == b'[|b'| - 1];
      assert Subsequence(a', b');
    } else {
      assert a + [] == a;
      if a != [] {
        assert Subsequence(a, b'[..|b'| - 1]);
      }
    }
  }

}
