/**
  The enumeration `itertools.combinations(pool, r)` performs on a pool of `n`
  items: every way of picking `r` distinct positions, written as a strictly
  increasing index tuple, in lexicographic order (the rightmost index advances
  fastest and carries to the left).

  `At(lo, n, r, k)` is the tuple at position `k` of that order over the positions
  `lo .. n - 1`, `Combos(n, r)` lists them all, and `Next` is the generator's step
  from one tuple to the following one; `CombosNext` proves that stepping with
  `Next` from the first tuple walks `Combos(n, r)` exactly.
*/
module Combinations {
  import opened Options

  // ---------------------------------------------------------------------------
  // Definitions
  // ---------------------------------------------------------------------------

  /** `c` picks `r` distinct positions of `lo .. n - 1`, listed in increasing order. */
  predicate IsCombination(c: seq<nat>, lo: nat, n: nat, r: nat) {
    && |c| == r
    && (forall i :: 0 <= i < |c| ==> lo <= c[i] < n)
    && (forall i, j :: 0 <= i < j < |c| ==> c[i] < c[j])
  }

  /** The binomial coefficient, by Pascal's rule. */
  function Binom(m: nat, k: nat): nat {
    if k == 0 then 1 else if m == 0 then 0 else Binom(m - 1, k - 1) + Binom(m - 1, k)
  }

  /** The tuple at position `k` of `itertools.combinations(range(lo, n), r)`: the
      C(n - lo - 1, r - 1) tuples that start with `lo` come first, then the
      C(n - lo - 1, r) tuples that do not. */
  function At(lo: nat, n: nat, r: nat, k: nat): seq<nat>
    requires lo <= n && k < Binom(n - lo, r)
    decreases n - lo
  {
    if r == 0 then []
    else if k < Binom(n - lo - 1, r - 1) then [lo] + At(lo + 1, n, r - 1, k)
    else At(lo + 1, n, r, k - Binom(n - lo - 1, r - 1))
  }

  /** The index tuples `itertools.combinations` yields for a pool of `n` items, in order. */
  function Combos(n: nat, r: nat): (cs: seq<seq<nat>>)
    ensures |cs| == Binom(n, r)
    ensures forall k :: 0 <= k < |cs| ==> cs[k] == At(0, n, r, k)
  {
    seq(Binom(n, r), k requires 0 <= k < Binom(n, r) => At(0, n, r, k))
  }

  /** `[x, x + 1, ..., x + m - 1]` */
  function Run(x: nat, m: nat): (r: seq<nat>)
    ensures |r| == m
    decreases m
  {
    if m == 0 then [] else [x] + Run(x + 1, m - 1)
  }

  /** The generator's step: the tuple that follows `c` among the combinations of
      `0 .. n - 1`, or `None` after the last. Found by moving the rightmost index
      that is not yet at its largest possible value, `position + n - |c|`, one up,
      and packing the indices to its right tightly behind it. */
  function Next(c: seq<nat>, n: nat): Option<seq<nat>> {
    if c == [] then None
    else match Next(c[1..], n)
      case Some(t) => Some([c[0]] + t)
      case None => if c[0] != n - |c| then Some(Run(c[0] + 1, |c|)) else None
  }

  /** Python's `<` on tuples of equal length: lexicographic order. */
  predicate LexLess(a: seq<nat>, b: seq<nat>) {
    a != [] && b != [] && (a[0] < b[0] || (a[0] == b[0] && LexLess(a[1..], b[1..])))
  }

  // ---------------------------------------------------------------------------
  // Counting
  // ---------------------------------------------------------------------------

  /** A binomial coefficient is non-zero exactly when there is something to choose from. */
  lemma {:induction false} BinomPositive(m: nat, k: nat)
    ensures Binom(m, k) > 0 <==> k <= m
  {
    if k > 0 && m > 0 {
      BinomPositive(m - 1, k - 1);
      BinomPositive(m - 1, k);
    }
  }

  /** There are `m` ways to choose one of `m` items. */
  lemma {:induction false} BinomOne(m: nat)
    ensures Binom(m, 1) == m
  {
    if m > 0 {
      BinomOne(m - 1);
    }
  }

  // ---------------------------------------------------------------------------
  // The order: every combination exactly once, increasing
  // ---------------------------------------------------------------------------

  /** Every position holds an `r`-combination of `lo .. n - 1`. */
  lemma {:induction false} AtSound(lo: nat, n: nat, r: nat, k: nat)
    requires lo <= n && k < Binom(n - lo, r)
    ensures IsCombination(At(lo, n, r, k), lo, n, r)
    decreases n - lo
  {
    if r > 0 {
      assert lo < n;
      var h := Binom(n - lo - 1, r - 1);
      if k < h {
        AtSound(lo + 1, n, r - 1, k);
        var t := At(lo + 1, n, r - 1, k);
        var c := [lo] + t;
        forall i, j | 0 <= i < j < |c| ensures c[i] < c[j] {
          assert c[j] == t[j - 1];
          if i > 0 {
            assert c[i] == t[i - 1];
          }
        }
      } else {
        AtSound(lo + 1, n, r, k - h);
      }
    }
  }

  /** Every `r`-combination of `lo .. n - 1` is at some position. */
  lemma {:induction false} AtComplete(c: seq<nat>, lo: nat, n: nat, r: nat)
    requires lo <= n && IsCombination(c, lo, n, r)
    ensures exists k: nat | k < Binom(n - lo, r) :: At(lo, n, r, k) == c
    decreases n - lo
  {
    if r == 0 {
      assert At(lo, n, r, 0) == c;
    } else {
      assert lo <= c[0] < n;
      var h := Binom(n - lo - 1, r - 1);
      if c[0] == lo {
        var t := c[1..];
        assert IsCombination(t, lo + 1, n, r - 1) by {
          forall i | 0 <= i < |t| ensures lo + 1 <= t[i] {
            assert c[0] < c[i + 1];
          }
        }
        AtComplete(t, lo + 1, n, r - 1);
        var k: nat :| k < h && At(lo + 1, n, r - 1, k) == t;
        assert c == [lo] + t;
        assert At(lo, n, r, k) == c;
      } else {
        assert IsCombination(c, lo + 1, n, r) by {
          forall i | 0 <= i < |c| ensures lo + 1 <= c[i] {
            if i > 0 {
              assert c[0] < c[i];
            }
          }
        }
        AtComplete(c, lo + 1, n, r);
        var k: nat :| k < Binom(n - lo - 1, r) && At(lo + 1, n, r, k) == c;
        assert At(lo, n, r, h + k) == c;
      }
    }
  }

  /** Positions follow the lexicographic order of the tuples, strictly. */
  lemma {:induction false} AtOrder(lo: nat, n: nat, r: nat, i: nat, j: nat)
    requires lo <= n && i < j < Binom(n - lo, r)
    ensures LexLess(At(lo, n, r, i), At(lo, n, r, j))
    decreases n - lo
  {
    assert r > 0 && lo < n;
    var h := Binom(n - lo - 1, r - 1);
    if j < h {
      AtOrder(lo + 1, n, r - 1, i, j);
      var a, b := At(lo + 1, n, r - 1, i), At(lo + 1, n, r - 1, j);
      assert ([lo] + a)[1..] == a && ([lo] + b)[1..] == b;
    } else if i < h {
      AtSound(lo + 1, n, r, j - h);
      assert At(lo, n, r, j)[0] >= lo + 1;
    } else {
      AtOrder(lo + 1, n, r, i - h, j - h);
    }
  }

  /** Lexicographic order is a strict order: never both ways. */
  lemma {:induction false} LexLessAsymmetric(a: seq<nat>, b: seq<nat>)
    ensures !(LexLess(a, b) && LexLess(b, a))
  {
    if a != [] && b != [] && a[0] == b[0] {
      LexLessAsymmetric(a[1..], b[1..]);
    }
  }

  // ---------------------------------------------------------------------------
  // The generator's step
  // ---------------------------------------------------------------------------

  /** A step inside a tuple's tail is the same step with the head kept. */
  lemma NextConsStep(x: nat, t: seq<nat>, u: seq<nat>, n: nat)
    requires Next(t, n) == Some(u)
    ensures Next([x] + t, n) == Some([x] + u)
  {
    assert ([x] + t)[1..] == t;
  }

  /** When the tail is exhausted, the head moves up one and the tail packs behind it... */
  lemma NextConsCarry(x: nat, t: seq<nat>, n: nat)
    requires Next(t, n) == None && x != n - |t| - 1
    ensures Next([x] + t, n) == Some(Run(x + 1, |t| + 1))
  {
    assert ([x] + t)[1..] == t;
  }

  /** ... unless the head is already at its largest value, and then the generator stops. */
  lemma NextConsStop(x: nat, t: seq<nat>, n: nat)
    requires Next(t, n) == None && x == n - |t| - 1
    ensures Next([x] + t, n) == None
  {
    assert ([x] + t)[1..] == t;
  }

  /** The scan `for i in reversed(range(r)): if indices[i] != i + n - r: break` over
      the positions below `i`: the rightmost one whose index is not at its largest
      value, or -1 when there is none. */
  function RightmostMovable(c: seq<nat>, n: nat, i: nat): (p: int)
    requires i <= |c|
    ensures -1 <= p < i
  {
    if i == 0 then -1
    else if c[i - 1] != (i - 1) + n - |c| then i - 1
    else RightmostMovable(c, n, i - 1)
  }

  /** The scan finds what it looks for: the position it returns is movable, and every
      position after it, up to where the scan started, is at its largest value. */
  lemma {:induction false} RightmostMovableIsRightmost(c: seq<nat>, n: nat, i: nat)
    requires i <= |c|
    ensures var p := RightmostMovable(c, n, i);
            && (p >= 0 ==> c[p] != p + n - |c|)
            && (forall q :: p < q < i ==> c[q] == q + n - |c|)
  {
    if i > 0 && c[i - 1] == (i - 1) + n - |c| {
      RightmostMovableIsRightmost(c, n, i - 1);
    }
  }

  /** The itertools step written as the generator's loop does it: find the rightmost
      movable position, raise its index by one, and set every later index to one more
      than the index before it. */
  function ItertoolsStep(c: seq<nat>, n: nat): Option<seq<nat>> {
    var p := RightmostMovable(c, n, |c|);
    if p < 0 then None else Some(c[..p] + Run(c[p] + 1, |c| - p))
  }

  /** Putting an index in front of the tuple shifts the scan's answer by one; when the
      tail has no movable position the new head is the only candidate. */
  lemma {:induction false} RightmostMovableCons(x: nat, t: seq<nat>, n: nat, i: nat)
    requires i <= |t|
    ensures var p := RightmostMovable(t, n, i);
            RightmostMovable([x] + t, n, i + 1)
              == if p >= 0 then p + 1 else if x != n - |t| - 1 then 0 else -1
  {
    var c := [x] + t;
    assert c[i] == if i == 0 then x else t[i - 1];
    if i > 0 {
      RightmostMovableCons(x, t, n, i - 1);
    }
  }

  /** The recursive step `Next` is the itertools step. */
  lemma {:induction false} NextIsItertoolsStep(c: seq<nat>, n: nat)
    ensures Next(c, n) == ItertoolsStep(c, n)
  {
    if c != [] {
      var x, t := c[0], c[1..];
      assert c == [x] + t;
      NextIsItertoolsStep(t, n);
      RightmostMovableCons(x, t, n, |t|);
      var p' := RightmostMovable(t, n, |t|);
      if p' >= 0 {
        var u := t[..p'] + Run(t[p'] + 1, |t| - p');
        NextConsStep(x, t, u, n);
        ItertoolsStepShift(x, t, n, p');
      } else if x != n - |c| {
        NextConsCarry(x, t, n);
        assert c[..0] + Run(c[0] + 1, |c| - 0) == Run(x + 1, |c|);
      } else {
        NextConsStop(x, t, n);
      }
    }
  }

  /** When the tail has a movable position `p`, the itertools step keeps the head and
      moves position `p` of the tail. */
  lemma ItertoolsStepShift(x: nat, t: seq<nat>, n: nat, p: nat)
    requires p == RightmostMovable(t, n, |t|)
    ensures ItertoolsStep([x] + t, n) == Some([x] + (t[..p] + Run(t[p] + 1, |t| - p)))
  {
    RightmostMovableCons(x, t, n, |t|);
    assert |[x] + t| == |t| + 1;
    ConsSlices(x, t, p);
  }

  /** Moving position `i + 1` of `[x] + t` is moving position `i` of `t` with `x` kept. */
  lemma ConsSlices(x: nat, t: seq<nat>, i: nat)
    requires i < |t|
    ensures var c := [x] + t;
            c[..i + 1] + Run(c[i + 1] + 1, |c| - (i + 1)) == [x] + (t[..i] + Run(t[i] + 1, |t| - i))
  {
    var c := [x] + t;
    assert c[i + 1] == t[i];
    assert |c| - (i + 1) == |t| - i;
    assert c[..i + 1] == [x] + t[..i];
  }

  /** The generator has no step after the top tuple. */
  lemma {:induction false} NextOfTop(n: nat, r: nat)
    requires r <= n
    ensures Next(Run(n - r, r), n) == None
  {
    if r > 0 {
      NextOfTop(n, r - 1);
      NextConsStop(n - r, Run(n - r + 1, r - 1), n);
    }
  }

  /** From `lo` followed by the top tuple of the rest, the generator carries into
      `[lo + 1, ..., lo + r]`. */
  lemma CarryFromTop(lo: nat, n: nat, r: nat)
    requires 0 < r && lo < n && r <= n - (lo + 1)
    ensures Next([lo] + Run(n - (r - 1), r - 1), n) == Some(Run(lo + 1, r))
  {
    NextOfTop(n, r - 1);
    NextConsCarry(lo, Run(n - (r - 1), r - 1), n);
  }

  /** The order starts at `[lo, lo + 1, ..., lo + r - 1]`. */
  lemma {:induction false} AtFirst(lo: nat, n: nat, r: nat)
    requires lo + r <= n
    ensures Binom(n - lo, r) > 0 && At(lo, n, r, 0) == Run(lo, r)
    decreases r
  {
    BinomPositive(n - lo, r);
    if r > 0 {
      AtFirst(lo + 1, n, r - 1);
    }
  }

  /** The order ends at the top tuple `[n - r, ..., n - 1]`. */
  lemma {:induction false} AtLast(lo: nat, n: nat, r: nat)
    requires lo + r <= n
    ensures Binom(n - lo, r) > 0 && At(lo, n, r, Binom(n - lo, r) - 1) == Run(n - r, r)
    decreases n - lo
  {
    BinomPositive(n - lo, r);
    if r > 0 {
      if lo + r < n {
        AtRestEnd(lo, n, r);
        AtLast(lo + 1, n, r);
      } else {
        AtEdgeEnd(lo, n, r);
        AtLast(lo + 1, n, r - 1);
        TopCons(n, r);
        assert lo == n - r;
      }
    }
  }

  /** With room to spare, the last tuple is the last tuple of the rest. */
  lemma AtRestEnd(lo: nat, n: nat, r: nat)
    requires 0 < r && lo + r < n
    ensures Binom(n - lo, r) > 0 && Binom(n - (lo + 1), r) > 0
    ensures At(lo, n, r, Binom(n - lo, r) - 1) == At(lo + 1, n, r, Binom(n - (lo + 1), r) - 1)
  {
    BinomPositive(n - lo - 1, r);
    assert n - (lo + 1) == n - lo - 1;
  }

  /** With exactly `r` positions left, every tuple starts with `lo`, the last one too. */
  lemma AtEdgeEnd(lo: nat, n: nat, r: nat)
    requires 0 < r && lo + r == n
    ensures Binom(n - lo, r) > 0 && Binom(n - (lo + 1), r - 1) > 0
    ensures At(lo, n, r, Binom(n - lo, r) - 1) == [lo] + At(lo + 1, n, r - 1, Binom(n - (lo + 1), r - 1) - 1)
  {
    BinomPositive(n - lo - 1, r);
    AtHeadsEnd(lo, n, r);
  }

  /** The top tuple is its smallest index followed by the top tuple one shorter. */
  lemma TopCons(n: nat, r: nat)
    requires 0 < r <= n
    ensures Run(n - r, r) == [n - r] + Run(n - (r - 1), r - 1)
  {
    assert n - r + 1 == n - (r - 1);
  }


  /** The step from position `k` yields position `k + 1`: inside the tuples starting
      with `lo`, across from the last of them to the first of the rest, or inside
      the rest. */
  lemma {:induction false} AtStep(lo: nat, n: nat, r: nat, k: nat)
    requires lo <= n && k + 1 < Binom(n - lo, r)
    ensures Next(At(lo, n, r, k), n) == Some(At(lo, n, r, k + 1))
    decreases n - lo
  {
    assert r > 0 && lo < n;
    var h := Binom(n - lo - 1, r - 1);
    if k + 1 < h {
      AtStep(lo + 1, n, r - 1, k);
      NextConsStep(lo, At(lo + 1, n, r - 1, k), At(lo + 1, n, r - 1, k + 1), n);
    } else if k + 1 == h {
      BinomPositive(n - lo - 1, r);
      AtStepAcross(lo, n, r);
      assert k == Binom(n - lo - 1, r - 1) - 1 && k + 1 == Binom(n - lo - 1, r - 1);
    } else {
      AtStep(lo + 1, n, r, k - h);
    }
  }

  /** From the last tuple starting with `lo`, which is `lo` followed by the top tuple
      of the rest, the generator carries into the first tuple of the rest,
      `[lo + 1, ..., lo + r]`. */
  lemma AtStepAcross(lo: nat, n: nat, r: nat)
    requires 0 < r && lo + r < n
    ensures var h := Binom(n - lo - 1, r - 1);
            0 < h < Binom(n - lo, r) && Next(At(lo, n, r, h - 1), n) == Some(At(lo, n, r, h))
  {
    AtHeadsEnd(lo, n, r);
    AtLast(lo + 1, n, r - 1);
    AtRestStart(lo, n, r);
    AtFirst(lo + 1, n, r);
    CarryFromTop(lo, n, r);
  }

  /** The last tuple starting with `lo` is `lo` followed by the last tuple of the rest
      with one index fewer. */
  lemma AtHeadsEnd(lo: nat, n: nat, r: nat)
    requires 0 < r && lo + r <= n
    ensures 0 < Binom(n - lo - 1, r - 1) <= Binom(n - lo, r)
    ensures At(lo, n, r, Binom(n - lo - 1, r - 1) - 1)
            == [lo] + At(lo + 1, n, r - 1, Binom(n - (lo + 1), r - 1) - 1)
  {
    BinomPositive(n - lo - 1, r - 1);
    assert n - (lo + 1) == n - lo - 1;
  }

  /** The first tuple not starting with `lo` is the first tuple of the rest. */
  lemma AtRestStart(lo: nat, n: nat, r: nat)
    requires 0 < r && lo + r < n
    ensures Binom(n - lo - 1, r - 1) < Binom(n - lo, r)
    ensures At(lo, n, r, Binom(n - lo - 1, r - 1)) == At(lo + 1, n, r, 0)
  {
    BinomPositive(n - lo - 1, r);
  }




  // ---------------------------------------------------------------------------
  // The whole pool
  // ---------------------------------------------------------------------------

  /** `Combos(n, r)` is exactly what the generator walks: it starts at
      `[0, 1, ..., r - 1]`, each step yields the next tuple, and the step after the
      last stops the generator. */
  lemma CombosNext(n: nat, r: nat)
    ensures var cs := Combos(n, r);
            && |cs| == Binom(n, r)
            && (r <= n ==> |cs| > 0 && cs[0] == Run(0, r))
            && (forall k :: 0 <= k < |cs| - 1 ==> Next(cs[k], n) == Some(cs[k + 1]))
            && (|cs| > 0 ==> Next(cs[|cs| - 1], n) == None)
  {
    CombosFirst(n, r);
    CombosSteps(n, r);
    CombosLastStops(n, r);
  }

  /** The enumeration starts at `[0, 1, ..., r - 1]` whenever `r` items fit. */
  lemma CombosFirst(n: nat, r: nat)
    ensures r <= n ==> |Combos(n, r)| > 0 && Combos(n, r)[0] == Run(0, r)
  {
    if r <= n {
      AtFirst(0, n, r);
    }
  }

  /** Each step of the generator yields the next tuple of the enumeration. */
  lemma CombosSteps(n: nat, r: nat)
    ensures forall k :: 0 <= k < |Combos(n, r)| - 1 ==> Next(Combos(n, r)[k], n) == Some(Combos(n, r)[k + 1])
  {
    forall k | 0 <= k < |Combos(n, r)| - 1
      ensures Next(Combos(n, r)[k], n) == Some(Combos(n, r)[k + 1])
    {
      AtStep(0, n, r, k);
    }
  }

  /** The step after the last tuple stops the generator. */
  lemma CombosLastStops(n: nat, r: nat)
    ensures |Combos(n, r)| > 0 ==> Next(Combos(n, r)[|Combos(n, r)| - 1], n) == None
  {
    BinomPositive(n, r);
    if r <= n {
      AtLast(0, n, r);
      NextOfTop(n, r);
    }
  }

  /** The facts about one position of the enumeration that a loop walking it needs. */
  lemma CombosAt(n: nat, r: nat, k: nat)
    requires k < |Combos(n, r)|
    ensures forall i :: 0 <= i < |Combos(n, r)[k]| ==> Combos(n, r)[k][i] < n
    ensures k + 1 < |Combos(n, r)| ==> Next(Combos(n, r)[k], n) == Some(Combos(n, r)[k + 1])
    ensures k + 1 == |Combos(n, r)| ==> Next(Combos(n, r)[k], n) == None
  {
    CombosNext(n, r);
    AtSound(0, n, r, k);
  }

  /** Every tuple listed is an `r`-combination of the pool. */
  lemma CombosSound(n: nat, r: nat)
    ensures forall k :: 0 <= k < |Combos(n, r)| ==> IsCombination(Combos(n, r)[k], 0, n, r)
  {
    forall k | 0 <= k < |Combos(n, r)| ensures IsCombination(Combos(n, r)[k], 0, n, r) {
      AtSound(0, n, r, k);
    }
  }

  /** Every `r`-combination of the pool is listed. */
  lemma CombosComplete(c: seq<nat>, n: nat, r: nat)
    requires IsCombination(c, 0, n, r)
    ensures c in Combos(n, r)
  {
    AtComplete(c, 0, n, r);
    var k: nat :| k < Binom(n, r) && At(0, n, r, k) == c;
    assert Combos(n, r)[k] == c;
  }

  /** Positions in the enumeration follow the lexicographic order of the tuples, so
      no tuple is listed twice. */
  lemma CombosOrder(n: nat, r: nat, i: nat, j: nat)
    requires i < |Combos(n, r)| && j < |Combos(n, r)|
    ensures LexLess(Combos(n, r)[i], Combos(n, r)[j]) <==> i < j
  {
    if i < j {
      AtOrder(0, n, r, i, j);
    } else if j < i {
      AtOrder(0, n, r, j, i);
      LexLessAsymmetric(Combos(n, r)[i], Combos(n, r)[j]);
    } else {
      LexLessAsymmetric(Combos(n, r)[i], Combos(n, r)[j]);
    }
  }

  // ---------------------------------------------------------------------------
  // Sums of binomial coefficients
  // ---------------------------------------------------------------------------

  /** 2 to the power m. */
  function Pow2(m: nat): nat {
    if m == 0 then 1 else 2 * Pow2(m - 1)
  }

  /** C(m, 0) + C(m, 1) + ... + C(m, k - 1). */
  function BinomSum(m: nat, k: nat): nat {
    if k == 0 then 0 else BinomSum(m, k - 1) + Binom(m, k - 1)
  }

  /** Pascal's rule, summed. */
  lemma {:induction false} BinomSumPascal(m: nat, k: nat)
    ensures BinomSum(m + 1, k + 1) == BinomSum(m, k) + BinomSum(m, k + 1)
  {
    if k > 0 {
      BinomSumPascal(m, k - 1);
    }
  }

  /** A set of m items has 2^m subsets: the sizes 0 .. m together. */
  lemma {:induction false} BinomSumAll(m: nat)
    ensures BinomSum(m, m + 1) == Pow2(m)
  {
    if m > 0 {
      BinomSumAll(m - 1);
      BinomSumPascal(m - 1, m);
      BinomPositive(m - 1, m);
    }
  }

}
