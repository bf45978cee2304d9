/**
  The search of `find_optimal_combination`: for r = 1 .. min(max_cores, n) it walks
  the r-combinations of the valid cores in `itertools.combinations` order, rejects a
  combination whose primary (first) skills repeat, otherwise tallies how often each
  target skill occurs in it, and stops at the first combination in which every target
  occurs at least twice. `total_combinations` counts every combination looked at.

  `Answers` states what the outcome must be; `Search` is proved to meet it, and the
  lemmas at the end say what it means: the winner is feasible, no smaller
  combination is, no earlier combination of its size is, the count is exact, and
  the outcome is determined by the inputs.
*/
module Search {
  import opened Options
  import opened Tokenizer
  import opened Catalog
  import opened Combinations

  // ---------------------------------------------------------------------------
  // Inputs and outcome
  // ---------------------------------------------------------------------------

  /** The search depth used when the field is not a positive number. */
  const DefaultMaxCores: nat := 6

  /** `max_cores`: the parsed field when it is positive, 6 when it is zero, negative,
      or did not parse (`None`). */
  function EffectiveMaxCores(input: Option<int>): (maxCores: nat)
    ensures maxCores >= 1
    ensures input.Some? && input.value > 0 ==> maxCores == input.value
    ensures input.None? || input.value <= 0 ==> maxCores == DefaultMaxCores
  {
    match input
    case None => DefaultMaxCores
    case Some(v) => if v <= 0 then DefaultMaxCores else v
  }

  /** How a run of `find_optimal_combination` ends. */
  datatype Outcome =
    | BlankInput       // the target text or the core text is blank
    | MalformedInput   // no target skills, or no line with two or more skills
    | NoValidCores     // no core holds two target skills
    | Found(indices: seq<nat>, combination: seq<Core>, size: nat, total: nat)
    | NotFound(total: nat)

  function Min(a: nat, b: nat): nat {
    if a <= b then a else b
  }

  // ---------------------------------------------------------------------------
  // Feasibility
  // ---------------------------------------------------------------------------

  /** The cores at the given positions of the valid catalog, as the tuple that
      `itertools.combinations(valid_cores, r)` yields for those positions. */
  function Select(valid: seq<Core>, indices: seq<nat>): (combination: seq<Core>)
    requires forall i :: 0 <= i < |indices| ==> indices[i] < |valid|
    ensures |combination| == |indices|
    ensures forall i :: 0 <= i < |indices| ==> combination[i] == valid[indices[i]]
  {
    seq(|indices|, i requires 0 <= i < |indices| => valid[indices[i]])
  }

  /** `[core[0] for core in combination]` */
  function Primaries(combination: seq<Core>): (firsts: seq<Skill>)
    requires forall i :: 0 <= i < |combination| ==> |combination[i]| >= 1
    ensures |firsts| == |combination|
  {
    if combination == [] then []
    else Primaries(combination[..|combination| - 1]) + [combination[|combination| - 1][0]]
  }

  /** No skill occurs twice. */
  predicate Distinct(s: seq<Skill>) {
    forall i, j :: 0 <= i < j < |s| ==> s[i] != s[j]
  }

  /** `set(s)` */
  function ToSet(s: seq<Skill>): set<Skill> {
    set x | x in s
  }

  /** How often `skill` occurs in `core`. */
  function CountIn(skill: Skill, core: Core): nat {
    if core == [] then 0
    else CountIn(skill, core[..|core| - 1]) + (if core[|core| - 1] == skill then 1 else 0)
  }

  /** How often `skill` occurs across all cores of the combination: every occurrence
      counts, so a core listing a skill twice adds two. */
  function Occurrences(skill: Skill, combination: seq<Core>): nat {
    if combination == [] then 0
    else Occurrences(skill, combination[..|combination| - 1]) + CountIn(skill, combination[|combination| - 1])
  }

  /** Every target occurs at least twice. */
  predicate Covers(targets: seq<Skill>, combination: seq<Core>) {
    forall i :: 0 <= i < |targets| ==> Occurrences(targets[i], combination) >= 2
  }

  /** A combination the search accepts: distinct primaries and every target covered twice. */
  predicate Feasible(targets: seq<Skill>, combination: seq<Core>)
    requires forall i :: 0 <= i < |combination| ==> |combination[i]| >= 1
  {
    Distinct(Primaries(combination)) && Covers(targets, combination)
  }

  /** The same for the combination at the given positions of the valid catalog. */
  predicate FeasibleAt(targets: seq<Skill>, valid: seq<Core>, indices: seq<nat>)
    requires forall i :: 0 <= i < |valid| ==> |valid[i]| >= 1
  {
    && (forall i :: 0 <= i < |indices| ==> indices[i] < |valid|)
    && Feasible(targets, Select(valid, indices))
  }

  /** `skill_counter[s]`: a `Counter` answers 0 for a skill it has not seen. */
  function Get(counter: map<Skill, nat>, skill: Skill): nat {
    if skill in counter then counter[skill] else 0
  }

  /** Why a combination is accepted or not; the primary test comes first and, when it
      fails, the coverage is not computed. */
  datatype Verdict = DuplicatePrimary | Uncovered | Covered

  // ---------------------------------------------------------------------------
  // The checks on one combination
  // ---------------------------------------------------------------------------

  /** The `Counter` loop: for every skill occurrence that is a target, add one. */
  method TallyTargets(targets: seq<Skill>, combination: seq<Core>) returns (counter: map<Skill, nat>)
    ensures forall s :: Get(counter, s) == if s in targets then Occurrences(s, combination) else 0
  {
    counter := map[];
    for i := 0 to |combination|
      invariant forall s :: Get(counter, s) == if s in targets then Occurrences(s, combination[..i]) else 0
    {
      var core := combination[i];
      for j := 0 to |core|
        invariant forall s :: Get(counter, s)
                    == if s in targets then Occurrences(s, combination[..i]) + CountIn(s, core[..j]) else 0
      {
        var skill := core[j];
        assert core[..j + 1][..j] == core[..j];
        if skill in targets {
          counter := counter[skill := Get(counter, skill) + 1];
        }
      }
      assert core[..|core|] == core;
      assert combination[..i + 1][..i] == combination[..i];
    }
    assert combination[..|combination|] == combination;
  }

  /** One combination: first the primary test, then the coverage count. */
  method CheckCombination(targets: seq<Skill>, combination: seq<Core>) returns (verdict: Verdict)
    requires forall i :: 0 <= i < |combination| ==> |combination[i]| >= 1
    ensures verdict == DuplicatePrimary <==> !Distinct(Primaries(combination))
    ensures verdict == Covered <==> Feasible(targets, combination)
  {
    var firstSkills := Primaries(combination);
    DistinctIffSetSize(firstSkills);
    if |firstSkills| != |ToSet(firstSkills)| {
      return DuplicatePrimary;
    }
    var counter := TallyTargets(targets, combination);
    if forall i :: 0 <= i < |targets| ==> Get(counter, targets[i]) >= 2 {
      return Covered;
    }
    return Uncovered;
  }

  // ---------------------------------------------------------------------------
  // The search
  // ---------------------------------------------------------------------------

  /** The combinations of every size below `r`: C(n, 1) + ... + C(n, r - 1). */
  function CountBelow(n: nat, r: nat): nat {
    if r <= 1 then 0 else CountBelow(n, r - 1) + Binom(n, r - 1)
  }

  /** No combination of a size 1 .. r - 1 is feasible. */
  ghost predicate NoneBelow(targets: seq<Skill>, valid: seq<Core>, r: nat)
    requires forall i :: 0 <= i < |valid| ==> |valid[i]| >= 1
  {
    forall r', j :: 1 <= r' < r && 0 <= j < |Combos(|valid|, r')| ==> !FeasibleAt(targets, valid, Combos(|valid|, r')[j])
  }

  /** None of the first k combinations of size r is feasible. */
  ghost predicate NoneBefore(targets: seq<Skill>, valid: seq<Core>, r: nat, k: nat)
    requires forall i :: 0 <= i < |valid| ==> |valid[i]| >= 1
  {
    forall j :: 0 <= j < k && j < |Combos(|valid|, r)| ==> !FeasibleAt(targets, valid, Combos(|valid|, r)[j])
  }

  /** What the search must answer for the valid cores and the depth `maxCores`. */
  ghost predicate Answers(targets: seq<Skill>, valid: seq<Core>, maxCores: nat, outcome: Outcome)
    requires forall i :: 0 <= i < |valid| ==> |valid[i]| >= 1
  {
    var n := |valid|;
    match outcome
    case Found(indices, combination, size, total) =>
      // the winner has size `size` and is combination number `total` of the whole run,
      // so it sits at position total - CountBelow(n, size) - 1 of its size's enumeration
      && 1 <= size <= Min(maxCores, n)
      && CountBelow(n, size) < total <= CountBelow(n, size) + |Combos(n, size)|
      && Combos(n, size)[total - CountBelow(n, size) - 1] == indices
      && FeasibleAt(targets, valid, indices)
      && combination == Select(valid, indices)
      // every combination looked at before it was rejected
      && NoneBefore(targets, valid, size, total - CountBelow(n, size) - 1)
      && NoneBelow(targets, valid, size)
    case NotFound(total) =>
      && total == CountBelow(n, Min(maxCores, n) + 1)
      && NoneBelow(targets, valid, Min(maxCores, n) + 1)
    case _ => false
  }

  /** The loop over r: sizes 1 .. min(max_cores, n), smallest first. */
  method Search(targets: seq<Skill>, valid: seq<Core>, maxCores: nat) returns (outcome: Outcome)
    requires forall i :: 0 <= i < |valid| ==> |valid[i]| >= 1
    ensures Answers(targets, valid, maxCores, outcome)
  {
    var n := |valid|;
    var totalCombinations := 0;
    var r := 1;
    while r <= Min(maxCores, n)
      invariant 1 <= r <= Min(maxCores, n) + 1
      invariant totalCombinations == CountBelow(n, r)
      invariant NoneBelow(targets, valid, r)
    {
      var winner;
      winner, totalCombinations := SearchSize(targets, valid, r, totalCombinations);
      if winner.Some? {
        return Found(winner.value, Select(valid, winner.value), r, totalCombinations);
      }
      assert |Combos(n, r)| == Binom(n, r) by {
        CombosNext(n, r);
      }
      NoneBelowNext(targets, valid, r);
      r := r + 1;
    }
    return NotFound(totalCombinations);
  }

  /** The loop over `itertools.combinations(valid_cores, r)`: each combination is
      counted, then checked; the first accepted one is the winner. */
  method SearchSize(targets: seq<Skill>, valid: seq<Core>, r: nat, totalBefore: nat)
    returns (winner: Option<seq<nat>>, totalCombinations: nat)
    requires forall i :: 0 <= i < |valid| ==> |valid[i]| >= 1
    requires 1 <= r <= |valid|
    ensures var combos := Combos(|valid|, r);
            && (winner.None? ==>
                  && totalCombinations == totalBefore + |combos|
                  && NoneBefore(targets, valid, r, |combos|))
            && (winner.Some? ==>
                  && totalBefore < totalCombinations <= totalBefore + |combos|
                  && combos[totalCombinations - totalBefore - 1] == winner.value
                  && FeasibleAt(targets, valid, winner.value)
                  && NoneBefore(targets, valid, r, totalCombinations - totalBefore - 1))
  {
    var n := |valid|;
    ghost var combos := Combos(n, r);
    assert combos != [] && combos[0] == Run(0, r) by {
      CombosNext(n, r);
    }
    totalCombinations := totalBefore;
    var combinationsCount := 0;
    var indices := Run(0, r);
    var more := true;
    ghost var k := 0;
    while more
      invariant 0 <= k <= |combos|
      invariant more <==> k < |combos|
      invariant more ==> indices == combos[k]
      invariant combinationsCount == k
      invariant totalCombinations == totalBefore + k
      invariant NoneBefore(targets, valid, r, k)
      decreases |combos| - k
    {
      combinationsCount := combinationsCount + 1;
      totalCombinations := totalCombinations + 1;
      CombosAt(n, r, k);
      var combination := Select(valid, indices);
      var verdict := CheckCombination(targets, combination);
      if verdict == Covered {
        assert totalCombinations - totalBefore - 1 == k;
        assert combos[totalCombinations - totalBefore - 1] == combos[k] == indices;
        return Some(indices), totalCombinations;
      }
      NoneBeforeNext(targets, valid, r, k);
      var following := Next(indices, n);
      if following.Some? {
        indices := following.value;
      } else {
        more := false;
      }
      k := k + 1;
    }
    winner := None;
  }

  lemma NoneBeforeNext(targets: seq<Skill>, valid: seq<Core>, r: nat, k: nat)
    requires forall i :: 0 <= i < |valid| ==> |valid[i]| >= 1
    requires k < |Combos(|valid|, r)|
    requires NoneBefore(targets, valid, r, k)
    requires !FeasibleAt(targets, valid, Combos(|valid|, r)[k])
    ensures NoneBefore(targets, valid, r, k + 1)
  {
  }

  lemma NoneBelowNext(targets: seq<Skill>, valid: seq<Core>, r: nat)
    requires forall i :: 0 <= i < |valid| ==> |valid[i]| >= 1
    requires NoneBelow(targets, valid, r)
    requires NoneBefore(targets, valid, r, |Combos(|valid|, r)|)
    ensures NoneBelow(targets, valid, r + 1)
  {
  }

  // ---------------------------------------------------------------------------
  // The entry point
  // ---------------------------------------------------------------------------

  /** `parse_skills(targets_text)` after the field is stripped. */
  function TargetsOf(targetsText: string): seq<Skill> {
    ParseSkills(Strip(targetsText))
  }

  /** `core_lines` for the stripped core text. */
  function CoreLinesOf(coresText: string): seq<Core> {
    CoreLines(SplitLines(Strip(coresText)))
  }

  /** `valid_cores` for the two texts. */
  function ValidOf(targetsText: string, coresText: string): seq<Core> {
    ValidCores(CoreLinesOf(coresText), TargetsOf(targetsText))
  }

  /** `find_optimal_combination` with its widget reads replaced by parameters and its
      messages by the outcome. */
  method FindOptimalCombination(targetsText: string, coresText: string, maxCoresInput: Option<int>)
    returns (outcome: Outcome)
    ensures outcome == BlankInput <==> Strip(targetsText) == [] || Strip(coresText) == []
    ensures outcome == MalformedInput <==>
              && Strip(targetsText) != [] && Strip(coresText) != []
              && (TargetsOf(targetsText) == [] || CoreLinesOf(coresText) == [])
    ensures outcome == NoValidCores <==>
              && Strip(targetsText) != [] && Strip(coresText) != []
              && TargetsOf(targetsText) != [] && CoreLinesOf(coresText) != []
              && ValidCores(CoreLinesOf(coresText), TargetsOf(targetsText)) == []
    ensures outcome.Found? || outcome.NotFound? ==> ValidOf(targetsText, coresText) != []
    ensures outcome.Found? || outcome.NotFound? ==>
              && (forall i :: 0 <= i < |ValidOf(targetsText, coresText)| ==> |ValidOf(targetsText, coresText)[i]| >= 2)
              && Answers(TargetsOf(targetsText), ValidOf(targetsText, coresText), EffectiveMaxCores(maxCoresInput), outcome)
  {
    var maxCores := EffectiveMaxCores(maxCoresInput);
    var targetsStripped := Strip(targetsText);
    var coresStripped := Strip(coresText);
    if targetsStripped == [] || coresStripped == [] {
      return BlankInput;
    }
    var targets := ParseSkills(targetsStripped);
    var coreLines := ParseCoreLines(coresStripped);
    if targets == [] || coreLines == [] {
      return MalformedInput;
    }
    var valid := FilterValidCores(coreLines, targets);
    if valid == [] {
      return NoValidCores;
    }
    ValidCoresAreLong(coreLines, targets);
    outcome := Search(targets, valid, maxCores);
  }

  // ---------------------------------------------------------------------------
  // The report on a winner
  // ---------------------------------------------------------------------------

  /** `[s for s in targets if skill_counter[s] < 2]` */
  function Insufficient(targets: seq<Skill>, counter: map<Skill, nat>): (short: seq<Skill>)
    ensures forall s :: s in short <==> s in targets && Get(counter, s) < 2
    ensures short == [] <==> forall i :: 0 <= i < |targets| ==> Get(counter, targets[i]) >= 2
  {
    if targets == [] then []
    else
      var rest := Insufficient(targets[..|targets| - 1], counter);
      var s := targets[|targets| - 1];
      assert forall t :: t in targets <==> t in targets[..|targets| - 1] || t == s;
      rest + (if Get(counter, s) < 2 then [s] else [])
  }

  /** `[s for s in targets if skill_counter[s] > 2]` */
  function Exceeded(targets: seq<Skill>, counter: map<Skill, nat>): (over: seq<Skill>)
    ensures forall s :: s in over <==> s in targets && Get(counter, s) > 2
  {
    if targets == [] then []
    else
      var rest := Exceeded(targets[..|targets| - 1], counter);
      var s := targets[|targets| - 1];
      assert forall t :: t in targets <==> t in targets[..|targets| - 1] || t == s;
      rest + (if Get(counter, s) > 2 then [s] else [])
  }

  /** The tally printed under a winner, and the targets it has too few or too many of. */
  method CoverageReport(targets: seq<Skill>, combination: seq<Core>)
    returns (counter: map<Skill, nat>, insufficient: seq<Skill>, exceeded: seq<Skill>)
    ensures forall s :: s in targets ==> Get(counter, s) == Occurrences(s, combination)
    ensures forall s :: s in insufficient <==> s in targets && Occurrences(s, combination) < 2
    ensures forall s :: s in exceeded <==> s in targets && Occurrences(s, combination) > 2
    ensures insufficient == [] <==> Covers(targets, combination)
  {
    counter := TallyTargets(targets, combination);
    insufficient := Insufficient(targets, counter);
    exceeded := Exceeded(targets, counter);
  }

  // ---------------------------------------------------------------------------
  // Lemmas
  // ---------------------------------------------------------------------------

  /** `len(s) != len(set(s))` is exactly "some skill occurs twice". */
  lemma {:induction false} DistinctIffSetSize(s: seq<Skill>)
    ensures |ToSet(s)| <= |s|
    ensures |ToSet(s)| == |s| <==> Distinct(s)
  {
    if s != [] {
      var init, x := s[..|s| - 1], s[|s| - 1];
      DistinctIffSetSize(init);
      assert s == init + [x];
      assert ToSet(s) == ToSet(init) + {x};
      if x in ToSet(init) {
        var j :| 0 <= j < |init| && init[j] == x;
        assert s[j] == s[|s| - 1];
      } else {
        assert |ToSet(s)| == |ToSet(init)| + 1;
        if Distinct(init) {
          forall a, b | 0 <= a < b < |s| ensures s[a] != s[b] {
            if b == |s| - 1 {
              assert s[a] in ToSet(init);
            } else {
              assert s[a] == init[a] && s[b] == init[b];
            }
          }
        } else {
          var a, b :| 0 <= a < b < |init| && init[a] == init[b];
          assert s[a] == s[b];
        }
      }
    }
  }

  /** The winner is a combination: r distinct positions of the valid catalog in increasing order. */
  lemma FoundIsCombination(targets: seq<Skill>, valid: seq<Core>, maxCores: nat, outcome: Outcome)
    requires forall i :: 0 <= i < |valid| ==> |valid[i]| >= 1
    requires Answers(targets, valid, maxCores, outcome) && outcome.Found?
    ensures IsCombination(outcome.indices, 0, |valid|, outcome.size)
    ensures Feasible(targets, outcome.combination)
  {
    CombosSound(|valid|, outcome.size);
  }

  /** Minimality: no combination with fewer cores than the winner is feasible. */
  lemma FoundIsMinimal(targets: seq<Skill>, valid: seq<Core>, maxCores: nat, outcome: Outcome, c: seq<nat>)
    requires forall i :: 0 <= i < |valid| ==> |valid[i]| >= 1
    requires Answers(targets, valid, maxCores, outcome) && outcome.Found?
    requires 1 <= |c| < outcome.size && IsCombination(c, 0, |valid|, |c|)
    ensures !FeasibleAt(targets, valid, c)
  {
    CombosComplete(c, |valid|, |c|);
    var j :| 0 <= j < |Combos(|valid|, |c|)| && Combos(|valid|, |c|)[j] == c;
  }

  /** Among the feasible combinations of the winning size, the winner comes first in
      lexicographic order of positions, which is the order `itertools.combinations` yields. */
  lemma FoundIsFirst(targets: seq<Skill>, valid: seq<Core>, maxCores: nat, outcome: Outcome, c: seq<nat>)
    requires forall i :: 0 <= i < |valid| ==> |valid[i]| >= 1
    requires Answers(targets, valid, maxCores, outcome) && outcome.Found?
    requires IsCombination(c, 0, |valid|, outcome.size) && LexLess(c, outcome.indices)
    ensures !FeasibleAt(targets, valid, c)
  {
    var n, r := |valid|, outcome.size;
    var k := outcome.total - CountBelow(n, r) - 1;
    CombosComplete(c, n, r);
    var j :| 0 <= j < |Combos(n, r)| && Combos(n, r)[j] == c;
    CombosOrder(n, r, j, k);
  }

  /** A search that finds nothing has ruled out every combination of up to
      min(max_cores, n) cores. */
  lemma NotFoundIsExhaustive(targets: seq<Skill>, valid: seq<Core>, maxCores: nat, outcome: Outcome, c: seq<nat>)
    requires forall i :: 0 <= i < |valid| ==> |valid[i]| >= 1
    requires Answers(targets, valid, maxCores, outcome) && outcome.NotFound?
    requires 1 <= |c| <= Min(maxCores, |valid|) && IsCombination(c, 0, |valid|, |c|)
    ensures !FeasibleAt(targets, valid, c)
  {
    CombosComplete(c, |valid|, |c|);
    var j :| 0 <= j < |Combos(|valid|, |c|)| && Combos(|valid|, |c|)[j] == c;
  }

  /** The search succeeds exactly when some combination of 1 .. min(max_cores, n)
      cores is feasible. */
  lemma FoundIffFeasibleExists(targets: seq<Skill>, valid: seq<Core>, maxCores: nat, outcome: Outcome)
    requires forall i :: 0 <= i < |valid| ==> |valid[i]| >= 1
    requires Answers(targets, valid, maxCores, outcome)
    ensures outcome.Found? <==>
              exists c :: 1 <= |c| <= Min(maxCores, |valid|) && IsCombination(c, 0, |valid|, |c|) && FeasibleAt(targets, valid, c)
  {
    if outcome.Found? {
      FoundIsCombination(targets, valid, maxCores, outcome);
      assert IsCombination(outcome.indices, 0, |valid|, |outcome.indices|);
    } else {
      forall c | 1 <= |c| <= Min(maxCores, |valid|) && IsCombination(c, 0, |valid|, |c|)
        ensures !FeasibleAt(targets, valid, c)
      {
        NotFoundIsExhaustive(targets, valid, maxCores, outcome, c);
      }
    }
  }

  /** The outcome is determined by the targets, the valid cores and the depth. */
  lemma AnswersUnique(targets: seq<Skill>, valid: seq<Core>, maxCores: nat, o1: Outcome, o2: Outcome)
    requires forall i :: 0 <= i < |valid| ==> |valid[i]| >= 1
    requires Answers(targets, valid, maxCores, o1) && Answers(targets, valid, maxCores, o2)
    ensures o1 == o2
  {
    var n := |valid|;
    assert o1.Found? ==> FeasibleAt(targets, valid, Combos(n, o1.size)[o1.total - CountBelow(n, o1.size) - 1]);
    assert o2.Found? ==> FeasibleAt(targets, valid, Combos(n, o2.size)[o2.total - CountBelow(n, o2.size) - 1]);
  }

  /** With max_cores = 1 a fruitless search looks at each valid core once. */
  lemma NotFoundAtDepthOne(targets: seq<Skill>, valid: seq<Core>, outcome: Outcome)
    requires forall i :: 0 <= i < |valid| ==> |valid[i]| >= 1
    requires Answers(targets, valid, 1, outcome) && outcome.NotFound?
    ensures outcome.total == |valid|
  {
    BinomOne(|valid|);
    if |valid| > 0 {
      assert CountBelow(|valid|, 2) == Binom(|valid|, 1);
    }
  }

  /** With max_cores at least n a fruitless search looks at every non-empty subset
      of the valid cores: 2^n - 1 combinations. */
  lemma NotFoundCountsAllSubsets(targets: seq<Skill>, valid: seq<Core>, maxCores: nat, outcome: Outcome)
    requires forall i :: 0 <= i < |valid| ==> |valid[i]| >= 1
    requires Answers(targets, valid, maxCores, outcome) && outcome.NotFound?
    requires maxCores >= |valid|
    ensures outcome.total == Pow2(|valid|) - 1
  {
    CountBelowIsBinomSum(|valid|, |valid| + 1);
    BinomSumAll(|valid|);
  }

  /** CountBelow(n, r) is C(n, 0) + ... + C(n, r - 1) less the empty combination. */
  lemma {:induction false} CountBelowIsBinomSum(n: nat, r: nat)
    requires r >= 1
    ensures CountBelow(n, r) == BinomSum(n, r) - 1
  {
    if r > 1 {
      CountBelowIsBinomSum(n, r - 1);
    }
  }

  /** Under a winner, the list of targets seen fewer than twice is empty. */
  lemma FoundLeavesNothingInsufficient(targets: seq<Skill>, valid: seq<Core>, maxCores: nat, outcome: Outcome,
                                       counter: map<Skill, nat>)
    requires forall i :: 0 <= i < |valid| ==> |valid[i]| >= 1
    requires Answers(targets, valid, maxCores, outcome) && outcome.Found?
    requires forall s :: s in targets ==> Get(counter, s) == Occurrences(s, outcome.combination)
    ensures Insufficient(targets, counter) == []
  {
    FoundIsCombination(targets, valid, maxCores, outcome);
    forall s | s in targets
      ensures Get(counter, s) >= 2
    {
      var i :| 0 <= i < |targets| && targets[i] == s;
    }
  }

}
