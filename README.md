# Core combination search, verified model

`core_helper.py` is a small desktop helper. The user gives it three inputs:

- a list of target skills;
- a catalog of cores, one core per line, each line naming the core's skills (the first one is the core's *primary* skill);
- a maximum number of cores.

It looks for the smallest set of cores, with pairwise different primary skills, in which every target skill occurs at least twice.

This project models the non-GUI part of that file in Dafny and proves what it computes:

- `Tokenizer`: `parse_skills`.
  - ASCII and full-width commas become spaces.
  - Runs of whitespace collapse to one space.
  - The text is split and stripped.
- `Catalog`:
  - splitting the core text at newlines;
  - the `core_lines` loop, which keeps lines with two or more skills;
  - the `valid_cores` loop, which keeps cores with two or more target occurrences.
- `Combinations`: the order in which `itertools.combinations(valid_cores, r)` visits its pool.
  - `At(lo, n, r, k)` is the tuple at position `k`, chosen by Pascal's rule: the C(n - lo - 1, r - 1) tuples starting with `lo` come first, then the rest.
  - `Combos(n, r)` lists the C(n, r) tuples `At(0, n, r, k)`. It is proved sound (each is strictly increasing), complete (every strictly increasing tuple is listed) and strictly ordered, so each combination appears exactly once and in lexicographic order.
  - `Next` is the generator's step.
  - It is proved to walk `Combos(n, r)` from the first tuple to the last and then stop.
  - It is also proved equal to the rightmost-movable-index step that the generator performs.
- `Search`:
  - the depth fallback;
  - the input checks;
  - the test on one combination: distinct primaries first, then the `Counter` tally;
  - the two nested search loops with their counters;
  - the tally and the insufficient and exceeded lists printed under a winner.

The function's message boxes and result text become the values of `Outcome`:

- `BlankInput`: the "enter both inputs" error;
- `MalformedInput`: the "wrong format" error;
- `NoValidCores`: the "no valid cores" notice;
- `Found(indices, combination, size, total)`;
- `NotFound(total)`.

`Answers` states what a search must return. `Search` is proved to meet it. The lemmas after it state what that means:

- the winner is feasible;
- no smaller combination is feasible;
- no feasible combination of the winner's size comes earlier in lexicographic order;
- a fruitless search has ruled out every size up to `min(max_cores, n)`;
- the combination counter is exact;
- the outcome is determined by the inputs.

The code is followed where it differs from what its comments say. The comment at core_helper.py:44 speaks of two or three skills per line, but the loop accepts any line with two or more, and so does the model. The catalog filter and the coverage tally count skill occurrences, not cores: a core listing a skill twice adds two. The targets stay a list, with duplicates kept, and membership is a list lookup.

## Model

| member | source | states |
|---|---|---|
| Tokenizer.ReplaceCommas | core_helper.py:20 | no comma is left, exactly the separators (whitespace or either comma) become whitespace, every other character is kept in place |
| Tokenizer.CollapseWhitespace | core_helper.py:21 | every whitespace run becomes one `' '`: the only whitespace left is a space, no two whitespace characters touch, empty exactly for empty input |
| Tokenizer.Strip | core_helper.py:26-27 | `strip()` is empty exactly when the text is all whitespace, otherwise it neither starts nor ends with whitespace |
| Tokenizer.SplitOn | core_helper.py:22 | `split()` gives non-empty pieces free of separators, and at least one piece when the text starts with a non-separator |
| Tokenizer.StripEachOfClean | core_helper.py:22 | the `strip()`/filter comprehension changes nothing on whitespace-free non-empty pieces |
| Tokenizer.ParseSkills | core_helper.py:17-22 | the result is exactly the maximal runs of non-separator characters (`Words`); every skill is non-empty and holds no whitespace or comma |
| Tokenizer.ParseSkillsContents | core_helper.py:17-22 | the skills glued together are the text's non-separator characters in input order: nothing is lost, added or reordered |
| Tokenizer.ParseSkillsJoinSpaces | core_helper.py:17-22 | parsing clean skill names joined by single spaces gives back the same list |
| Tokenizer.ParseSkillsRoundTrip | core_helper.py:17-22 | re-parsing the parsed skills joined by single spaces gives the same list |
| Tokenizer.BlankHasNoWords | core_helper.py:17-22 | an all-whitespace text yields no skills |
| Catalog.SplitLines | core_helper.py:46 | `split("\n")` yields at least one piece and no piece holds a newline |
| Catalog.SplitLinesRoundTrip | core_helper.py:46 | joining the pieces with newlines gives the text back |
| Catalog.CoreLines | core_helper.py:45-50 | at most one core per line, each with two or more skills |
| Catalog.ParseCoreLines | core_helper.py:45-50 | the append loop builds exactly `CoreLines` of the text's lines |
| Catalog.IsCoreLineIsLong | core_helper.py:47-49 | the blank-line test adds nothing: a line is kept exactly when it parses to two or more skills |
| Catalog.CoreLinesAreLongLines | core_helper.py:45-50 | the cores are the order-preserving subsequence of the per-line parses, each kept exactly as often as a line parses to it with two or more skills, with no upper bound on the count |
| Catalog.TargetHits | core_helper.py:59 | the number of target occurrences in a core is at most its length |
| Catalog.ValidCores | core_helper.py:56-61 | every kept core has two or more target occurrences, and no more cores come out than went in |
| Catalog.FilterValidCores | core_helper.py:56-61 | the append loop builds exactly `ValidCores` |
| Catalog.ValidCoresAreLong | core_helper.py:56-61 | every valid core holds two or more skills, so `core[0]` exists |
| Catalog.ValidCoresAreValidSubsequence | core_helper.py:56-61 | the filter output is an order-preserving subsequence of the catalog holding every valid core as often as the catalog does and no invalid one |
| Catalog.ValidCoresOfValid | core_helper.py:56-61 | a catalog of valid cores passes the filter unchanged |
| Catalog.ValidCoresIdempotent | core_helper.py:56-61 | filtering the filtered catalog again changes nothing |
| Combinations.BinomPositive | core_helper.py:88 | C(m, k) is non-zero exactly when k <= m |
| Combinations.BinomOne | core_helper.py:88 | there are m ways to pick one of m cores |
| Combinations.AtSound | core_helper.py:88 | every position of the enumeration holds r strictly increasing positions of the pool |
| Combinations.AtComplete | core_helper.py:88 | every strictly increasing r-tuple of pool positions sits at some position of the enumeration |
| Combinations.AtOrder | core_helper.py:88 | a later position holds a lexicographically larger tuple |
| Combinations.LexLessAsymmetric | core_helper.py:88 | lexicographic order never holds both ways |
| Combinations.RightmostMovableIsRightmost | core_helper.py:88 | the generator's scan finds the rightmost index below its largest possible value, all later ones being at theirs |
| Combinations.NextIsItertoolsStep | core_helper.py:88 | the recursive step equals raising the rightmost movable index and packing the tail behind it |
| Combinations.NextOfTop | core_helper.py:88 | the generator stops after the top tuple |
| Combinations.AtFirst | core_helper.py:88 | the enumeration starts at `[lo, ..., lo + r - 1]` |
| Combinations.AtLast | core_helper.py:88 | the enumeration ends at the top tuple `[n - r, ..., n - 1]` |
| Combinations.AtStep | core_helper.py:88 | the generator's step from any position but the last yields the tuple at the next position |
| Combinations.CombosNext | core_helper.py:88 | C(n, r) tuples, the first is `[0, ..., r - 1]` when r <= n, each step yields the following tuple, and the step after the last stops |
| Combinations.CombosAt | core_helper.py:88 | the same step facts at a single position, and every index of the tuple there is a position of the pool |
| Combinations.CombosSound | core_helper.py:88 | every listed tuple is an r-combination of the n pool positions |
| Combinations.CombosComplete | core_helper.py:88 | every r-combination of the n pool positions is listed |
| Combinations.CombosOrder | core_helper.py:88 | one listed tuple is lexicographically smaller than another exactly when it is listed earlier, so no tuple is listed twice |
| Combinations.BinomSumPascal | core_helper.py:83-90 | Pascal's rule summed over the sizes |
| Combinations.BinomSumAll | core_helper.py:83-90 | C(m, 0) + ... + C(m, m) = 2^m |
| Search.EffectiveMaxCores | core_helper.py:30-35 | a positive parsed depth is kept; zero, negative or unparseable gives 6 |
| Search.Select | core_helper.py:88 | the combination holds the valid core at each chosen position |
| Search.Primaries | core_helper.py:93 | one primary skill per core of the combination |
| Search.DistinctIffSetSize | core_helper.py:94 | `len(first_skills) != len(set(first_skills))` holds exactly when some primary repeats |
| Search.TallyTargets | core_helper.py:98-102 | the `Counter` holds, for each target, its occurrences across the combination, and 0 for every other skill |
| Search.CheckCombination | core_helper.py:93-105 | a repeated primary rejects the combination before any tally; otherwise it is accepted exactly when it is feasible |
| Search.SearchSize | core_helper.py:87-113 | walks the size-r combinations in generator order, counting each one; the winner is the first feasible one and its count is its position; with no winner every size-r combination was counted and rejected |
| Search.Search | core_helper.py:77-116 | meets `Answers`: sizes 1 .. min(max_cores, n) in order, stopping at the first feasible combination, with the running total |
| Search.FindOptimalCombination | core_helper.py:24-116 | blank input, no targets or core lines, and an empty filtered catalog each give their own outcome exactly when they occur; otherwise the search outcome meets `Answers` on the parsed targets and valid cores |
| Search.FoundIsCombination | core_helper.py:88-113 | the winner is a strictly increasing tuple of positions with distinct primaries covering every target twice |
| Search.FoundIsMinimal | core_helper.py:83-113 | no combination with fewer cores than the winner is feasible |
| Search.FoundIsFirst | core_helper.py:87-113 | no feasible combination of the winner's size precedes it in lexicographic order |
| Search.NotFoundIsExhaustive | core_helper.py:83-116 | after a fruitless search no combination of 1 .. min(max_cores, n) cores is feasible |
| Search.FoundIffFeasibleExists | core_helper.py:83-116 | a winner is found exactly when some combination of 1 .. min(max_cores, n) cores is feasible |
| Search.AnswersUnique | core_helper.py:83-113 | only one outcome meets `Answers`: the result is determined by targets, valid cores and depth |
| Search.CountBelowIsBinomSum | core_helper.py:83-90 | the combinations of sizes 1 .. r - 1 number C(n, 0) + ... + C(n, r - 1) - 1 |
| Search.NotFoundAtDepthOne | core_helper.py:83-90 | with max_cores = 1 a fruitless search counts exactly n combinations |
| Search.NotFoundCountsAllSubsets | core_helper.py:83-90 | with max_cores >= n a fruitless search counts 2^n - 1 combinations |
| Search.Insufficient | core_helper.py:144 | lists exactly the targets counted fewer than twice, and is empty exactly when every target is counted twice |
| Search.Exceeded | core_helper.py:145 | lists exactly the targets counted more than twice |
| Search.CoverageReport | core_helper.py:132-145 | the tally matches each target's occurrences; the insufficient and exceeded lists hold the targets with fewer / more than two occurrences; the insufficient list is empty exactly when the combination covers every target |
| Search.FoundLeavesNothingInsufficient | core_helper.py:132-145 | under a winner the insufficient list is empty |

In `Answers`, a winner of size r reported with total t sits at position t - CountBelow(n, r) - 1 of the size-r enumeration. CountBelow(n, r) is C(n, 1) + ... + C(n, r - 1). So `total_combinations` is the count of all smaller combinations plus the winner's 1-based position. A fruitless search reports CountBelow(n, min(max_cores, n) + 1).

## Left out

- The tkinter window is not modelled: widgets, colours, message boxes, the result text and its `update()` calls. Each message branch is an `Outcome` value instead.
- The widget reads are parameters of `FindOptimalCombination`: the target text, the core text and the depth field.
- Python's `int()` parsing of the depth field is not modelled. The parameter is an `Option<int>`, and `None` stands for the `ValueError` branch.
- `time.time()` and the elapsed seconds are not modelled: they are wall-clock floats shown only as text.
- `optimal_size = float('inf')` is not modelled. A winner's size is carried in `Found`, and the printed "inf" of a fruitless search is the `NotFound` outcome.
- `combinations_count` is kept and proved equal to the position in the current size, but the per-size progress line printed from it is not.
- The formatting of the winner's cores (`' - '.join`) and the final "all exactly twice" message are not modelled. The report covers the tally and the two lists the message depends on.
- `IsWhitespace` is written out as the fixed set of characters Python's `str.isspace` accepts. The Unicode database behind that set is not modelled.
- `itertools.combinations` yields tuples of core values. The model enumerates tuples of positions and obtains the cores with `Select`, which keeps the library's per-position semantics: equal cores at different positions are different choices.
