/** Keystroke sequence detection (esqabe/kreep/detection.py): inside each
    flow of large-enough packets, find the longest chain of packets whose
    lengths grow the way a search box's autocomplete requests grow, one
    typed character at a time, as judged by a per-website admissibility rule. */
module Detection {
  import opened Common
  import opened KreepUtil

  /** The rule registry, in its iteration order: "google", then "baidu". */
  datatype Rule = Google | Baidu

  const RULES: seq<Rule> := [Google, Baidu]

  function RuleName(rule: Rule): string
  {
    match rule
    case Google => "google"
    case Baidu => "baidu"
  }

  /** No length increase of 4 or more between consecutive elements. */
  predicate NoBigIncrease(a: seq<int>)
  {
    forall p, q :: 0 <= p < |a| && 0 <= q < |a| && q == p + 1 ==> a[q] - a[p] < 4
  }

  /** google_rule: may `e` (sent at `te`) extend the chain of lengths `a`,
      whose start time is `ta` and whose last element was sent at `tp`?
      The source's branch for decreases is switched off (`if False and ...`),
      so a decrease falls through to the final rejection. */
  predicate GoogleRule(a: seq<int>, e: int, ta: int, te: int, tp: int)
    requires |a| > 0
  {
    var d := e - a[|a| - 1];
    if |a| <= 2 && te - ta > 2500 then false
    else if te - tp > 3000 then false
    else if d == 0 then !(|a| >= 2 && a[|a| - 1] - a[|a| - 2] == 0)
    else if d == 1 || d == 2 || d == 3 then true
    else
      var estimated := (a[|a| - 1] - a[0]) + 8 + 1;
      if d > 4 && estimated + 5 > d > estimated - 5 then |a| >= 5 && NoBigIncrease(a)
      else false
  }

  /** baidu_rule: an increase between 2 and 30, within 2000 ms of the start
      while the chain is short. */
  predicate BaiduRule(a: seq<int>, e: int, ta: int, te: int, tp: int)
    requires |a| > 0
  {
    var d := e - a[|a| - 1];
    if |a| <= 2 && te - ta > 2000 then false
    else 2 <= d <= 30
  }

  predicate Accepts(rule: Rule, a: seq<int>, e: int, ta: int, te: int, tp: int)
    requires |a| > 0
  {
    if rule == Google then GoogleRule(a, e, ta, te, tp) else BaiduRule(a, e, ta, te, tp)
  }

  /** A rule as `longest_dfa_sequence` receives it: the lengths of the
      chain so far, the next length, the start time, the next time and the
      previous time. */
  type AppendRule = (seq<int>, int, int, int, int) -> bool

  /** The registered rule as an `AppendRule`. The chains it is handed are
      never empty (each holds at least the packet that ends it). */
  function RuleFn(rule: Rule): AppendRule
  {
    (x: seq<int>, e: int, ta: int, te: int, tp: int) => |x| > 0 && Accepts(rule, x, e, ta, te, tp)
  }

  // ---------------------------------------------------------------------
  // The dynamic program of longest_dfa_sequence, stated as functions.
  // ---------------------------------------------------------------------

  predicate Increasing(c: seq<nat>)
  {
    forall p, q :: 0 <= p < q < |c| ==> c[p] < c[q]
  }

  predicate Below(c: seq<nat>, n: int)
  {
    forall k :: 0 <= k < |c| ==> c[k] < n
  }

  /** The lengths of the packets an index chain selects (the list `L[i]`
      that goes with `idx[i]`). */
  function Lengths(a: seq<int>, c: seq<nat>): (r: seq<int>)
    requires Below(c, |a|)
    ensures |r| == |c|
  {
    if |c| == 0 then [] else Lengths(a, c[..|c| - 1]) + [a[c[|c| - 1]]]
  }

  lemma {:induction false} LengthsIndex(a: seq<int>, c: seq<nat>)
    requires Below(c, |a|)
    ensures forall k :: 0 <= k < |c| ==> Lengths(a, c)[k] == a[c[k]]
  {
    if |c| > 0 {
      LengthsIndex(a, c[..|c| - 1]);
    }
  }

  predicate WellFormed(a: seq<int>, t: seq<int>)
  {
    |a| == |t|
  }

  /** A table of chains the rule can be called on: each is non-empty and
      names packets of the flow. */
  predicate ValidTable(a: seq<int>, idx: seq<seq<nat>>)
  {
    |idx| <= |a| &&
    forall k :: 0 <= k < |idx| ==> |idx[k]| >= 1 && Below(idx[k], |a|)
  }

  /** The rule call of the inner loop: may packet `i` extend chain `j`?
      The call passes `L[j]`, the time of packet `j` as the start time, and
      the time of the last packet of `idx[j]` as the previous time. */
  predicate Extends(a: seq<int>, t: seq<int>, accept: AppendRule, idx: seq<seq<nat>>, i: nat, j: nat)
    requires WellFormed(a, t) && ValidTable(a, idx) && j < |idx| && i < |a|
  {
    var cj := idx[j];
    accept(Lengths(a, cj), a[i], t[j], t[i], t[cj[|cj| - 1]])
  }

  /** `idx[i]` after the inner loop has tried predecessors 0 .. j-1: chain
      `j - 1` is adopted when the rule lets packet `i` extend it and the
      chain held so far is no longer than it. */
  function Scan(a: seq<int>, t: seq<int>, accept: AppendRule, idx: seq<seq<nat>>, i: nat, j: nat): (c: seq<nat>)
    requires WellFormed(a, t) && ValidTable(a, idx) && j <= |idx| && i < |a|
    ensures Below(c, |a|)
  {
    if j == 0 then []
    else
      var held := Scan(a, t, accept, idx, i, j - 1);
      var cj := idx[j - 1];
      if Extends(a, t, accept, idx, i, j - 1) && |held| < |cj| + 1 then cj else held
  }

  /** The first `n` entries of `idx` once the outer loop is done with them. */
  function Chains(a: seq<int>, t: seq<int>, accept: AppendRule, n: nat): (idx: seq<seq<nat>>)
    requires WellFormed(a, t) && n <= |a|
    ensures |idx| == n && ValidTable(a, idx)
  {
    if n == 0 then []
    else
      var prev := Chains(a, t, accept, n - 1);
      prev + [Scan(a, t, accept, prev, n - 1, n - 1) + [n - 1]]
  }

  /** The finished chain of packet `i`. */
  function Chain(a: seq<int>, t: seq<int>, accept: AppendRule, i: nat): (c: seq<nat>)
    requires WellFormed(a, t) && i < |a|
    ensures |c| >= 1 && Below(c, |a|)
  {
    Chains(a, t, accept, |a|)[i]
  }

  /** May packet `i` extend the finished chain of an earlier packet `q`? */
  predicate Accepted(a: seq<int>, t: seq<int>, accept: AppendRule, i: nat, q: nat)
    requires WellFormed(a, t) && q < i < |a|
  {
    Extends(a, t, accept, Chains(a, t, accept, i), i, q)
  }

  /** A chain, once finished, is never changed by later iterations. */
  lemma {:induction false} ChainsStable(a: seq<int>, t: seq<int>, accept: AppendRule, n: nat, m: nat)
    requires WellFormed(a, t) && n <= m <= |a|
    ensures Chains(a, t, accept, m)[..n] == Chains(a, t, accept, n)
    decreases m - n
  {
    if n < m {
      ChainsStable(a, t, accept, n, m - 1);
      assert Chains(a, t, accept, m)[..m - 1] == Chains(a, t, accept, m - 1);
    }
  }

  lemma ChainsAt(a: seq<int>, t: seq<int>, accept: AppendRule, n: nat, i: nat)
    requires WellFormed(a, t) && i < n <= |a|
    ensures Chains(a, t, accept, n)[i] == Chain(a, t, accept, i)
  {
    ChainsStable(a, t, accept, n, |a|);
    assert Chains(a, t, accept, |a|)[..n][i] == Chains(a, t, accept, |a|)[i];
  }

  /** The predecessor whose chain the scan holds after trying 0 .. j-1,
      or -1 while it holds none. */
  function Winner(a: seq<int>, t: seq<int>, accept: AppendRule, idx: seq<seq<nat>>, i: nat, j: nat): (w: int)
    requires WellFormed(a, t) && ValidTable(a, idx) && j <= |idx| && i < |a|
    ensures -1 <= w < j
  {
    if j == 0 then -1
    else
      var h := Winner(a, t, accept, idx, i, j - 1);
      var heldLength := if h < 0 then 0 else |idx[h]|;
      if Extends(a, t, accept, idx, i, j - 1) && heldLength < |idx[j - 1]| + 1 then j - 1 else h
  }

  /** The scan holds the chain of its winner: none exactly when no
      predecessor is accepted, else an accepted one that no accepted
      predecessor beats in length. */
  lemma {:induction false} ScanHoldsLongest(a: seq<int>, t: seq<int>, accept: AppendRule, idx: seq<seq<nat>>, i: nat, j: nat)
    requires WellFormed(a, t) && ValidTable(a, idx) && j <= |idx| && i < |a|
    ensures var w := Winner(a, t, accept, idx, i, j);
      Scan(a, t, accept, idx, i, j) == (if w < 0 then [] else idx[w])
    ensures var w := Winner(a, t, accept, idx, i, j);
      (w < 0 <==> forall q :: 0 <= q < j ==> !Extends(a, t, accept, idx, i, q)) &&
      (w >= 0 ==> Extends(a, t, accept, idx, i, w))
    ensures forall q :: 0 <= q < j && Extends(a, t, accept, idx, i, q) ==>
      |idx[q]| <= |Scan(a, t, accept, idx, i, j)|
  {
    if j > 0 {
      ScanHoldsLongest(a, t, accept, idx, i, j - 1);
    }
  }

  /** Ties go to the LAST predecessor: an equally long later chain replaces
      the held one, since the comparison is `len(L[i]) < len(L[j]) + 1`, so
      every accepted predecessor after the winner has a strictly shorter
      chain. */
  lemma {:induction false} ScanKeepsLastLongest(a: seq<int>, t: seq<int>, accept: AppendRule, idx: seq<seq<nat>>, i: nat, j: nat)
    requires WellFormed(a, t) && ValidTable(a, idx) && j <= |idx| && i < |a|
    ensures forall q :: Winner(a, t, accept, idx, i, j) < q < j && Extends(a, t, accept, idx, i, q) ==>
      |idx[q]| < |Scan(a, t, accept, idx, i, j)|
  {
    if j > 0 {
      ScanHoldsLongest(a, t, accept, idx, i, j - 1);
      ScanKeepsLastLongest(a, t, accept, idx, i, j - 1);
      var w := Winner(a, t, accept, idx, i, j);
      if w != j - 1 {
        assert w == Winner(a, t, accept, idx, i, j - 1);
        assert Scan(a, t, accept, idx, i, j) == Scan(a, t, accept, idx, i, j - 1);
      }
    }
  }

  /** The predecessor whose chain packet `i` extends, or -1 for none. */
  function Predecessor(a: seq<int>, t: seq<int>, accept: AppendRule, i: nat): (w: int)
    requires WellFormed(a, t) && i < |a|
    ensures -1 <= w < i
  {
    Winner(a, t, accept, Chains(a, t, accept, i), i, i)
  }

  /** The chain of packet `i` is `[i]` when no earlier chain accepts it, and
      otherwise the chain of its predecessor followed by `i`; the predecessor
      is accepted, no accepted chain is longer, and every accepted chain
      after it is shorter. */
  lemma ChainExtendsLastLongest(a: seq<int>, t: seq<int>, accept: AppendRule, i: nat)
    requires WellFormed(a, t) && i < |a|
    ensures var w := Predecessor(a, t, accept, i);
      (w < 0 <==> forall q :: 0 <= q < i ==> !Accepted(a, t, accept, i, q)) &&
      (w < 0 ==> Chain(a, t, accept, i) == [i]) &&
      (w >= 0 ==> Accepted(a, t, accept, i, w) && Chain(a, t, accept, i) == Chain(a, t, accept, w) + [i])
    ensures forall q :: 0 <= q < i && Accepted(a, t, accept, i, q) ==>
      |Chain(a, t, accept, q)| < |Chain(a, t, accept, i)|
    ensures forall q :: Predecessor(a, t, accept, i) < q < i && Accepted(a, t, accept, i, q) ==>
      |Chain(a, t, accept, q)| + 1 < |Chain(a, t, accept, i)|
  {
    var idx := Chains(a, t, accept, i);
    ChainsAt(a, t, accept, i + 1, i);
    assert Chains(a, t, accept, i + 1)[i] == Scan(a, t, accept, idx, i, i) + [i];
    ScanHoldsLongest(a, t, accept, idx, i, i);
    ScanKeepsLastLongest(a, t, accept, idx, i, i);
    forall q | 0 <= q < i
      ensures idx[q] == Chain(a, t, accept, q)
      ensures Accepted(a, t, accept, i, q) == Extends(a, t, accept, idx, i, q)
    {
      ChainsAt(a, t, accept, i, q);
    }
  }

  /** The chain of packet `i` is strictly increasing and ends at `i`. */
  lemma {:induction false} ChainShape(a: seq<int>, t: seq<int>, accept: AppendRule, i: nat)
    requires WellFormed(a, t) && i < |a|
    ensures var c := Chain(a, t, accept, i);
      c[|c| - 1] == i && Increasing(c) && Below(c, i + 1)
    decreases i
  {
    ChainExtendsLastLongest(a, t, accept, i);
    var w := Predecessor(a, t, accept, i);
    if w >= 0 {
      ChainShape(a, t, accept, w);
    }
  }

  /** Every step of a chain was accepted by the rule: given the lengths of
      the chain up to it, the next packet's length, the time of the packet
      before it (as start and as previous time) and the next packet's time. */
  predicate Admissible(a: seq<int>, t: seq<int>, accept: AppendRule, c: seq<nat>)
    requires WellFormed(a, t) && Below(c, |a|)
  {
    Increasing(c) && forall p :: 0 < p < |c| ==> StepAccepted(a, t, accept, c, p)
  }

  /** Step `p` of chain `c`: the rule accepted packet `c[p]` after `c[..p]`. */
  predicate StepAccepted(a: seq<int>, t: seq<int>, accept: AppendRule, c: seq<nat>, p: nat)
    requires WellFormed(a, t) && Below(c, |a|) && 0 < p < |c|
  {
    accept(Lengths(a, c[..p]), a[c[p]], t[c[p - 1]], t[c[p]], t[c[p - 1]])
  }

  /** Appending a packet the rule accepts after an admissible chain keeps
      it admissible. */
  lemma AdmissibleSnoc(a: seq<int>, t: seq<int>, accept: AppendRule, c: seq<nat>, i: nat)
    requires WellFormed(a, t) && i < |a| && |c| >= 1 && Below(c, i) && Admissible(a, t, accept, c)
    requires accept(Lengths(a, c), a[i], t[c[|c| - 1]], t[i], t[c[|c| - 1]])
    ensures Admissible(a, t, accept, c + [i])
  {
    var c' := c + [i];
    forall p | 0 < p < |c'|
      ensures StepAccepted(a, t, accept, c', p)
    {
      if p < |c| {
        assert StepAccepted(a, t, accept, c, p);
        assert c'[..p] == c[..p] && c'[p] == c[p] && c'[p - 1] == c[p - 1];
      } else {
        assert c'[..p] == c;
      }
    }
  }

  /** Every chain the program builds is admissible. */
  lemma {:induction false} ChainAdmissible(a: seq<int>, t: seq<int>, accept: AppendRule, i: nat)
    requires WellFormed(a, t) && i < |a|
    ensures Admissible(a, t, accept, Chain(a, t, accept, i))
    decreases i
  {
    ChainExtendsLastLongest(a, t, accept, i);
    var w := Predecessor(a, t, accept, i);
    if w >= 0 {
      var cw := Chain(a, t, accept, w);
      ChainAdmissible(a, t, accept, w);
      ChainShape(a, t, accept, w);
      ChainsAt(a, t, accept, i, w);
      assert Accepted(a, t, accept, i, w);
      AdmissibleSnoc(a, t, accept, cw, i);
    }
  }

  /** The gap between the last two lengths of a chain; a one-element chain
      has an infinite gap (`math.inf`). */
  datatype Gap = Finite(d: int) | Infinite

  /** `<` on gaps, with `inf < inf` false as in Python. */
  predicate Smaller(x: Gap, y: Gap)
  {
    match (x, y)
    case (Finite(p), Finite(q)) => p < q
    case (Finite(_), Infinite) => true
    case (Infinite, _) => false
  }

  function LastGap(a: seq<int>, c: seq<nat>): Gap
    requires Below(c, |a|)
  {
    if |c| > 1 then Finite(a[c[|c| - 1]] - a[c[|c| - 2]]) else Infinite
  }

  /** The last gap as the selection loop computes it, from a list of lengths. */
  function GapOf(l: seq<int>): Gap
  {
    if |l| > 1 then Finite(l[|l| - 1] - l[|l| - 2]) else Infinite
  }

  lemma GapOfLengths(a: seq<int>, c: seq<nat>)
    requires Below(c, |a|)
    ensures GapOf(Lengths(a, c)) == LastGap(a, c)
  {
    if |c| > 1 {
      var c' := c[..|c| - 1];
      assert c'[..|c'| - 1] == c[..|c| - 2];
    }
  }

  /** The index of the chain the final loop holds after looking at chains
      0 .. k-1 (it starts holding chain 0): a later chain replaces it when
      it is longer, or as long with a strictly smaller last gap. */
  function Selected(a: seq<int>, t: seq<int>, accept: AppendRule, k: nat): (s: nat)
    requires WellFormed(a, t) && 0 < |a| && k <= |a|
    ensures s < |a| && (k > 0 ==> s < k)
  {
    if k == 0 then 0
    else
      var s := Selected(a, t, accept, k - 1);
      var ck, cs := Chain(a, t, accept, k - 1), Chain(a, t, accept, s);
      if |ck| > |cs| || (|ck| == |cs| && Smaller(LastGap(a, ck), LastGap(a, cs))) then k - 1 else s
  }

  /** The chain `longest_dfa_sequence` returns. */
  function Longest(a: seq<int>, t: seq<int>, accept: AppendRule): (c: seq<nat>)
    requires WellFormed(a, t) && 0 < |a|
    ensures |c| >= 1 && Below(c, |a|)
  {
    Chain(a, t, accept, Selected(a, t, accept, |a|))
  }

  /** The selected chain is a longest one; among the longest, no chain has a
      smaller last gap; and every earlier chain just as long has a strictly
      larger gap (the first chain with the best gap wins). */
  lemma {:induction false} SelectedIsBest(a: seq<int>, t: seq<int>, accept: AppendRule, k: nat)
    requires WellFormed(a, t) && 0 < k <= |a|
    ensures var cs := Chain(a, t, accept, Selected(a, t, accept, k));
      forall q :: 0 <= q < k ==> |Chain(a, t, accept, q)| <= |cs|
    ensures var cs := Chain(a, t, accept, Selected(a, t, accept, k));
      forall q :: 0 <= q < k && |Chain(a, t, accept, q)| == |cs| ==>
        !Smaller(LastGap(a, Chain(a, t, accept, q)), LastGap(a, cs))
    ensures var cs := Chain(a, t, accept, Selected(a, t, accept, k));
      forall q :: 0 <= q < Selected(a, t, accept, k) && |Chain(a, t, accept, q)| == |cs| ==>
        Smaller(LastGap(a, cs), LastGap(a, Chain(a, t, accept, q)))
  {
    if k > 1 {
      SelectedIsBest(a, t, accept, k - 1);
      var h := Selected(a, t, accept, k - 1);
      var s := Selected(a, t, accept, k);
      if s != h {
        var ch, cs := Chain(a, t, accept, h), Chain(a, t, accept, s);
        forall q | 0 <= q < k && |Chain(a, t, accept, q)| == |cs|
          ensures q < s ==> Smaller(LastGap(a, cs), LastGap(a, Chain(a, t, accept, q)))
          ensures !Smaller(LastGap(a, Chain(a, t, accept, q)), LastGap(a, cs))
        {
          if q < s {
            GapOrder(LastGap(a, Chain(a, t, accept, q)), LastGap(a, ch), LastGap(a, cs));
          }
        }
      }
    }
  }

  /** `x >= y > z` gives `z < x`, and `z < x` rules out `x < z`. */
  lemma GapOrder(x: Gap, y: Gap, z: Gap)
    requires !Smaller(x, y) && Smaller(z, y)
    ensures Smaller(z, x) && !Smaller(x, z)
  {
  }

  /** Along a chain the baidu rule admits, each length grows by 2 to 30, and
      the first two steps each take at most 2000 ms. */
  lemma BaiduChainSteps(a: seq<int>, t: seq<int>, c: seq<nat>)
    requires WellFormed(a, t) && Below(c, |a|) && Admissible(a, t, RuleFn(Baidu), c)
    ensures forall p :: 0 < p < |c| ==> 2 <= a[c[p]] - a[c[p - 1]] <= 30
    ensures forall p :: 0 < p < |c| && p <= 2 ==> t[c[p]] - t[c[p - 1]] <= 2000
  {
    forall p | 0 < p < |c|
      ensures 2 <= a[c[p]] - a[c[p - 1]] <= 30
      ensures p <= 2 ==> t[c[p]] - t[c[p - 1]] <= 2000
    {
      LengthsIndex(a, c[..p]);
      assert StepAccepted(a, t, RuleFn(Baidu), c, p);
    }
  }

  /** Along a chain the google rule admits, lengths never decrease, each
      step takes at most 3000 ms (2500 ms for the first two), and the length
      never stays the same twice in a row. */
  lemma GoogleChainSteps(a: seq<int>, t: seq<int>, c: seq<nat>)
    requires WellFormed(a, t) && Below(c, |a|) && Admissible(a, t, RuleFn(Google), c)
    ensures forall p :: 0 < p < |c| ==> a[c[p - 1]] <= a[c[p]] && t[c[p]] - t[c[p - 1]] <= 3000
    ensures forall p :: 0 < p < |c| && p <= 2 ==> t[c[p]] - t[c[p - 1]] <= 2500
    ensures forall p :: 1 < p < |c| ==> !(a[c[p]] == a[c[p - 1]] && a[c[p - 1]] == a[c[p - 2]])
  {
    forall p | 0 < p < |c|
      ensures a[c[p - 1]] <= a[c[p]] && t[c[p]] - t[c[p - 1]] <= 3000
      ensures p <= 2 ==> t[c[p]] - t[c[p - 1]] <= 2500
      ensures p > 1 ==> !(a[c[p]] == a[c[p - 1]] && a[c[p - 1]] == a[c[p - 2]])
    {
      LengthsIndex(a, c[..p]);
      assert StepAccepted(a, t, RuleFn(Google), c, p);
    }
  }

  /** One pass of the inner loop of longest_dfa_sequence: given the
      finished chains 0 .. i-1 and their lengths, compute `idx[i]` and
      `L[i]` (both start empty), then append packet `i`. */
  method ExtendChain(a: seq<int>, t: seq<int>, accept: AppendRule, L: seq<seq<int>>, idx: seq<seq<nat>>, i: nat)
    returns (li: seq<int>, ci: seq<nat>)
    requires WellFormed(a, t) && i < |a| && i <= |idx| && i <= |L|
    requires idx[..i] == Chains(a, t, accept, i)
    requires forall k :: 0 <= k < i ==> Below(idx[k], |a|) && L[k] == Lengths(a, idx[k])
    ensures ci == Chains(a, t, accept, i + 1)[i]
    ensures Below(ci, |a|) && li == Lengths(a, ci)
  {
    ghost var done := Chains(a, t, accept, i);
    li, ci := [], [];
    var j := 0;
    while j < i
      invariant 0 <= j <= i
      invariant ci == Scan(a, t, accept, done, i, j) && li == Lengths(a, ci)
    {
      assert idx[j] == done[j];
      var cj := idx[j];
      if accept(L[j], a[i], t[j], t[i], t[cj[|cj| - 1]]) && |li| < |L[j]| + 1 {
        li, ci := L[j], idx[j];
      }
      j := j + 1;
    }
    assert (ci + [i])[..|ci|] == ci;
    li, ci := li + [a[i]], ci + [i];
  }

  /** Storing the next chain at its index extends the stored prefix of the table. */
  lemma ChainsSnoc(a: seq<int>, t: seq<int>, accept: AppendRule, idx: seq<seq<nat>>, i: nat, ci: seq<nat>)
    requires WellFormed(a, t) && i < |a| && i < |idx|
    requires idx[..i] == Chains(a, t, accept, i)
    requires ci == Chains(a, t, accept, i + 1)[i]
    ensures idx[i := ci][..i + 1] == Chains(a, t, accept, i + 1)
  {
    var next := idx[i := ci];
    assert next[..i] == idx[..i];
    assert next[..i + 1] == next[..i] + [ci];
  }

  /** The nested loops of longest_dfa_sequence: fill `L` and `idx`. */
  method BuildChains(a: seq<int>, t: seq<int>, accept: AppendRule) returns (L: seq<seq<int>>, idx: seq<seq<nat>>)
    requires WellFormed(a, t) && 0 < |a|
    ensures idx == Chains(a, t, accept, |a|) && |L| == |a|
    ensures forall k :: 0 <= k < |a| ==> L[k] == Lengths(a, idx[k])
  {
    var n := |a|;
    L := seq(n, _ => []);
    idx := seq(n, _ => []);
    L := L[0 := L[0] + [a[0]]];
    idx := idx[0 := idx[0] + [0]];
    assert idx[..1] == Chains(a, t, accept, 1);
    var i := 1;
    while i < n
      invariant 1 <= i <= n && |L| == n && |idx| == n
      invariant idx[..i] == Chains(a, t, accept, i)
      invariant forall k :: 0 <= k < i ==> Below(idx[k], n) && L[k] == Lengths(a, idx[k])
    {
      var li, ci := ExtendChain(a, t, accept, L, idx, i);
      ChainsSnoc(a, t, accept, idx, i, ci);
      L := L[i := li];
      idx := idx[i := ci];
      i := i + 1;
    }
    assert idx == idx[..n];
  }

  /** longest_dfa_sequence: build the chains, then keep the longest, on
      ties the one with the smallest last gap, on further ties the first. */
  method LongestDfaSequence(a: seq<int>, t: seq<int>, accept: AppendRule) returns (m: seq<nat>)
    requires WellFormed(a, t) && 0 < |a|
    ensures m == Longest(a, t, accept)
  {
    var L, idx := BuildChains(a, t, accept);
    var n := |a|;
    m := idx[0];
    GapOfLengths(a, m);
    var pdiff := GapOf(L[0]);
    ghost var s := 0;
    var k := 0;
    while k < n
      invariant 0 <= k <= n && s == Selected(a, t, accept, k)
      invariant m == idx[s] && pdiff == LastGap(a, m)
    {
      var x := idx[k];
      GapOfLengths(a, x);
      var diff := GapOf(L[k]);
      if |x| > |m| || (|x| == |m| && Smaller(diff, pdiff)) {
        m := x;
        pdiff := diff;
        s := k;
      }
      k := k + 1;
    }
  }

  // ---------------------------------------------------------------------
  // detect_keystrokes and detect_website_keystrokes over the rows of a
  // capture.
  // ---------------------------------------------------------------------

  /** Rows no longer than the smallest GET request are dropped. */
  const MIN_REQUEST_LENGTH := 100

  /** A flow: the (src, dst, protocol) triple of a row. */
  datatype FlowKey = FlowKey(src: string, dst: string, protocol: nat)

  function KeyOf(r: Row): FlowKey
  {
    FlowKey(r.src, r.dst, r.protocol)
  }

  /** The rows longer than the minimum request length, in order. */
  function Candidates(rows: seq<Row>): (r: seq<Row>)
    ensures |r| <= |rows|
  {
    if |rows| == 0 then []
    else
      var prefix := Candidates(rows[..|rows| - 1]);
      var x := rows[|rows| - 1];
      if x.length > MIN_REQUEST_LENGTH then prefix + [x] else prefix
  }

  lemma {:induction false} CandidatesMembers(rows: seq<Row>)
    ensures forall x :: x in Candidates(rows) <==> x in rows && x.length > MIN_REQUEST_LENGTH
  {
    if |rows| > 0 {
      CandidatesMembers(rows[..|rows| - 1]);
      assert forall y :: y in rows <==> y in rows[..|rows| - 1] || y == rows[|rows| - 1];
    }
  }

  /** The distinct flows in order of first appearance (`drop_duplicates`). */
  function FlowKeys(rows: seq<Row>): (ks: seq<FlowKey>)
  {
    if |rows| == 0 then []
    else
      var prefix := FlowKeys(rows[..|rows| - 1]);
      var k := KeyOf(rows[|rows| - 1]);
      if k in prefix then prefix else prefix + [k]
  }

  /** Every flow of the rows is listed, once. */
  lemma {:induction false} FlowKeysMembers(rows: seq<Row>)
    ensures forall k :: k in FlowKeys(rows) <==> exists x :: x in rows && KeyOf(x) == k
    ensures forall p, q :: 0 <= p < q < |FlowKeys(rows)| ==> FlowKeys(rows)[p] != FlowKeys(rows)[q]
  {
    if |rows| > 0 {
      FlowKeysMembers(rows[..|rows| - 1]);
      assert forall y :: y in rows <==> y in rows[..|rows| - 1] || y == rows[|rows| - 1];
    }
  }

  /** The rows of one flow, in order. */
  function FlowRows(rows: seq<Row>, k: FlowKey): (r: seq<Row>)
    ensures |r| <= |rows|
  {
    if |rows| == 0 then []
    else
      var prefix := FlowRows(rows[..|rows| - 1], k);
      var x := rows[|rows| - 1];
      if KeyOf(x) == k then prefix + [x] else prefix
  }

  lemma {:induction false} FlowRowsMembers(rows: seq<Row>, k: FlowKey)
    ensures forall x :: x in FlowRows(rows, k) <==> x in rows && KeyOf(x) == k
  {
    if |rows| > 0 {
      FlowRowsMembers(rows[..|rows| - 1], k);
      assert forall y :: y in rows <==> y in rows[..|rows| - 1] || y == rows[|rows| - 1];
    }
  }

  /** The `frame_length` and `frame_time` columns. */
  function LengthColumn(rows: seq<Row>): (r: seq<int>)
    ensures |r| == |rows| && forall k :: 0 <= k < |rows| ==> r[k] == rows[k].length
  {
    seq(|rows|, k requires 0 <= k < |rows| => rows[k].length)
  }

  function TimeColumn(rows: seq<Row>): (r: seq<int>)
    ensures |r| == |rows| && forall k :: 0 <= k < |rows| ==> r[k] == rows[k].time
  {
    seq(|rows|, k requires 0 <= k < |rows| => rows[k].time)
  }

  /** `df.iloc[c]`: the rows at the positions of a chain, in chain order. */
  function Pick(rows: seq<Row>, c: seq<nat>): (r: seq<Row>)
    requires Below(c, |rows|)
    ensures |r| == |c| && forall k :: 0 <= k < |c| ==> r[k] == rows[c[k]]
  {
    seq(|c|, k requires 0 <= k < |c| => rows[c[k]])
  }

  /** The keystroke chain of one flow under a rule. */
  function FlowChain(flow: seq<Row>, rule: Rule): seq<Row>
  {
    if |flow| == 0 then []
    else Pick(flow, Longest(LengthColumn(flow), TimeColumn(flow), RuleFn(rule)))
  }

  /** The chain of every flow of `keys`, in order. */
  function FlowChains(rows: seq<Row>, keys: seq<FlowKey>, rule: Rule): (cs: seq<seq<Row>>)
    ensures |cs| == |keys|
  {
    if |keys| == 0 then []
    else FlowChains(rows, keys[..|keys| - 1], rule) + [FlowChain(FlowRows(rows, keys[|keys| - 1]), rule)]
  }

  lemma {:induction false} FlowChainsAt(rows: seq<Row>, keys: seq<FlowKey>, rule: Rule, p: nat)
    requires p < |keys|
    ensures FlowChains(rows, keys, rule)[p] == FlowChain(FlowRows(rows, keys[p]), rule)
  {
    if p < |keys| - 1 {
      FlowChainsAt(rows, keys[..|keys| - 1], rule, p);
    }
  }

  /** The result held after the chains `cs` were tried in order: a chain
      replaces it only when strictly longer. */
  function BestOf(cs: seq<seq<Row>>): seq<Row>
  {
    if |cs| == 0 then []
    else
      var held := BestOf(cs[..|cs| - 1]);
      if |cs[|cs| - 1]| > |held| then cs[|cs| - 1] else held
  }

  /** The position of the chain `BestOf` holds, or -1. */
  function BestIndex(cs: seq<seq<Row>>): (b: int)
    ensures -1 <= b < |cs|
  {
    if |cs| == 0 then -1
    else
      var h := BestIndex(cs[..|cs| - 1]);
      var heldLength := if h < 0 then 0 else |cs[h]|;
      if |cs[|cs| - 1]| > heldLength then |cs| - 1 else h
  }

  /** The chain held is the one `BestIndex` names, which is not empty, or
      empty when it names none. */
  lemma {:induction false} BestOfIsBestIndex(cs: seq<seq<Row>>)
    ensures var b := BestIndex(cs);
      BestOf(cs) == (if b < 0 then [] else cs[b]) && (b >= 0 ==> |cs[b]| > 0)
  {
    if |cs| > 0 {
      var prefix := cs[..|cs| - 1];
      BestOfIsBestIndex(prefix);
      var h := BestIndex(prefix);
      if h >= 0 {
        assert prefix[h] == cs[h];
      }
    }
  }

  /** No chain tried is longer than the chain held. */
  lemma {:induction false} BestOfIsLongest(cs: seq<seq<Row>>)
    ensures forall p :: 0 <= p < |cs| ==> |cs[p]| <= |BestOf(cs)|
  {
    if |cs| > 0 {
      var prefix := cs[..|cs| - 1];
      BestOfIsLongest(prefix);
      forall p | 0 <= p < |prefix| ensures |cs[p]| <= |BestOf(cs)| {
        assert prefix[p] == cs[p];
      }
    }
  }

  /** Every chain tried before the one `BestIndex` names is strictly
      shorter: ties go to the first. */
  lemma {:induction false} BestIndexIsFirst(cs: seq<seq<Row>>)
    ensures forall p :: 0 <= p < BestIndex(cs) ==> |cs[p]| < |BestOf(cs)|
  {
    if |cs| > 0 {
      var prefix := cs[..|cs| - 1];
      BestIndexIsFirst(prefix);
      BestOfIsBestIndex(prefix);
      BestOfIsLongest(prefix);
      forall p | 0 <= p < BestIndex(cs) ensures |cs[p]| < |BestOf(cs)| {
        assert prefix[p] == cs[p];
      }
    }
  }

  /** The chain held after trying chains `cs` is one of them (or empty), no
      chain is longer, and every earlier chain is strictly shorter: ties go
      to the first flow. */
  lemma BestOfIsFirstLongest(cs: seq<seq<Row>>)
    ensures var b := BestIndex(cs);
      BestOf(cs) == (if b < 0 then [] else cs[b])
    ensures forall p :: 0 <= p < |cs| ==> |cs[p]| <= |BestOf(cs)|
    ensures forall p :: 0 <= p < BestIndex(cs) ==> |cs[p]| < |BestOf(cs)|
  {
    BestOfIsBestIndex(cs);
    BestOfIsLongest(cs);
    BestIndexIsFirst(cs);
  }

  /** Google sends one more request after the last keystroke when the last
      step grows by 4 or more: that last row is dropped. */
  function PostFilter(r: seq<Row>, rule: Rule): (f: seq<Row>)
    ensures f == r || (rule == Google && |r| > 1 && f == r[..|r| - 1])
    ensures rule == Google && |r| > 1 && r[|r| - 1].length - r[|r| - 2].length >= 4 <==> f != r
  {
    if rule == Google && |r| > 1 && r[|r| - 1].length - r[|r| - 2].length >= 4 then r[..|r| - 1] else r
  }

  /** detect_keystrokes: the keystroke rows found under one rule. */
  function Detect(rows: seq<Row>, rule: Rule): seq<Row>
  {
    var df := Candidates(rows);
    PostFilter(BestOf(FlowChains(df, FlowKeys(df), rule)), rule)
  }

  /** After the post filter the chain held is a prefix of the best chain,
      which is not empty, or empty when there is none. */
  lemma FilteredBest(cs: seq<seq<Row>>, rule: Rule)
    ensures var b, r := BestIndex(cs), PostFilter(BestOf(cs), rule);
      (b < 0 ==> r == []) &&
      (b >= 0 ==> |cs[b]| > 0 && exists n :: 0 <= n <= |cs[b]| && r == cs[b][..n])
  {
    BestOfIsBestIndex(cs);
    var b, r := BestIndex(cs), PostFilter(BestOf(cs), rule);
    if b >= 0 {
      if r == cs[b] {
        assert r == cs[b][..|cs[b]|];
      } else {
        assert r == cs[b][..|cs[b]| - 1];
      }
    }
  }

  /** The keystrokes are a prefix of the chain of the best flow, which is
      non-empty when they are. */
  lemma DetectFromBestFlow(rows: seq<Row>, rule: Rule)
    ensures var df := Candidates(rows);
      var keys := FlowKeys(df);
      var b := BestIndex(FlowChains(df, keys, rule));
      var r := Detect(rows, rule);
      (b < 0 ==> r == []) &&
      (b >= 0 ==> var flow := FlowRows(df, keys[b]);
        |flow| > 0 && exists n :: 0 <= n <= |FlowChain(flow, rule)| && r == FlowChain(flow, rule)[..n])
  {
    var df := Candidates(rows);
    var keys := FlowKeys(df);
    var cs := FlowChains(df, keys, rule);
    FilteredBest(cs, rule);
    var b := BestIndex(cs);
    if b >= 0 {
      FlowChainsAt(df, keys, rule, b);
    }
  }

  /** The rows of a chain picked from a flow all belong to that flow. */
  lemma PickFromFlow(rows: seq<Row>, k: FlowKey, c: seq<nat>)
    requires Below(c, |FlowRows(rows, k)|)
    ensures forall x :: x in Pick(FlowRows(rows, k), c) ==> x in rows && KeyOf(x) == k
  {
    var flow := FlowRows(rows, k);
    FlowRowsMembers(rows, k);
    forall x | x in Pick(flow, c) ensures x in rows && KeyOf(x) == k {
      var p :| 0 <= p < |c| && Pick(flow, c)[p] == x;
      assert flow[c[p]] in flow;
    }
  }

  /** The rows of a flow's chain all belong to that flow. */
  lemma ChainFromFlow(rows: seq<Row>, k: FlowKey, rule: Rule)
    ensures forall x :: x in FlowChain(FlowRows(rows, k), rule) ==> x in rows && KeyOf(x) == k
  {
    var flow := FlowRows(rows, k);
    if |flow| > 0 {
      PickFromFlow(rows, k, Longest(LengthColumn(flow), TimeColumn(flow), RuleFn(rule)));
    }
  }

  /** The keystroke rows all come from one flow of rows longer than the
      minimum request length. */
  lemma DetectIsOneFlow(rows: seq<Row>, rule: Rule)
    ensures var r := Detect(rows, rule);
      forall p :: 0 <= p < |r| ==> r[p] in rows && r[p].length > MIN_REQUEST_LENGTH && KeyOf(r[p]) == KeyOf(r[0])
  {
    var df := Candidates(rows);
    var keys := FlowKeys(df);
    var b := BestIndex(FlowChains(df, keys, rule));
    DetectFromBestFlow(rows, rule);
    if b >= 0 {
      var chain := FlowChain(FlowRows(df, keys[b]), rule);
      ChainFromFlow(df, keys[b], rule);
      CandidatesMembers(rows);
      var r := Detect(rows, rule);
      var n :| 0 <= n <= |chain| && r == chain[..n];
      forall q | 0 <= q < |r| ensures r[q] in df && KeyOf(r[q]) == keys[b] {
        assert r[q] == chain[q];
        assert chain[q] in chain;
      }
    }
  }

  /** Every flow's chain is at most one row longer than the keystrokes
      found (the one row google's post filter may drop), and baidu
      keystrokes are at least as long as every flow's chain. */
  lemma DetectIsLongest(rows: seq<Row>, rule: Rule, k: FlowKey)
    requires k in FlowKeys(Candidates(rows))
    ensures |FlowChain(FlowRows(Candidates(rows), k), rule)| <= |Detect(rows, rule)| + 1
    ensures rule == Baidu ==> |FlowChain(FlowRows(Candidates(rows), k), rule)| <= |Detect(rows, rule)|
  {
    var df := Candidates(rows);
    var keys := FlowKeys(df);
    var cs := FlowChains(df, keys, rule);
    BestOfIsLongest(cs);
    var p :| 0 <= p < |keys| && keys[p] == k;
    FlowChainsAt(df, keys, rule, p);
  }

  /** The chain of a non-empty flow is admissible under its rule. */
  lemma FlowChainAdmissible(flow: seq<Row>, rule: Rule)
    requires |flow| > 0
    ensures var a, t := LengthColumn(flow), TimeColumn(flow);
      var c := Longest(a, t, RuleFn(rule));
      FlowChain(flow, rule) == Pick(flow, c) && Admissible(a, t, RuleFn(rule), c)
  {
    var a, t := LengthColumn(flow), TimeColumn(flow);
    ChainAdmissible(a, t, RuleFn(rule), Selected(a, t, RuleFn(rule), |a|));
  }

  /** Consecutive keystroke rows grow by 2 to 30 bytes. */
  predicate BaiduSteps(r: seq<Row>)
  {
    forall p :: 0 < p < |r| ==> 2 <= r[p].length - r[p - 1].length <= 30
  }

  /** Consecutive keystroke rows never shrink and are at most 3000 ms
      apart, and no length repeats three times in a row. */
  predicate GoogleSteps(r: seq<Row>)
  {
    (forall p :: 0 < p < |r| ==> r[p - 1].length <= r[p].length && r[p].time - r[p - 1].time <= 3000) &&
    (forall p :: 1 < p < |r| ==> !(r[p].length == r[p - 1].length && r[p - 1].length == r[p - 2].length))
  }

  lemma BaiduStepsPrefix(r: seq<Row>, n: nat)
    requires BaiduSteps(r) && n <= |r|
    ensures BaiduSteps(r[..n])
  {
  }

  lemma GoogleStepsPrefix(r: seq<Row>, n: nat)
    requires GoogleSteps(r) && n <= |r|
    ensures GoogleSteps(r[..n])
  {
  }

  lemma BaiduFlowChainSteps(flow: seq<Row>)
    requires |flow| > 0
    ensures BaiduSteps(FlowChain(flow, Baidu))
  {
    var a, t := LengthColumn(flow), TimeColumn(flow);
    var c := Longest(a, t, RuleFn(Baidu));
    FlowChainAdmissible(flow, Baidu);
    BaiduChainSteps(a, t, c);
    var r := Pick(flow, c);
    forall p | 0 < p < |r| ensures 2 <= r[p].length - r[p - 1].length <= 30 {
      assert a[c[p]] == r[p].length && a[c[p - 1]] == r[p - 1].length;
    }
  }

  lemma GoogleFlowChainSteps(flow: seq<Row>)
    requires |flow| > 0
    ensures GoogleSteps(FlowChain(flow, Google))
  {
    var a, t := LengthColumn(flow), TimeColumn(flow);
    var c := Longest(a, t, RuleFn(Google));
    FlowChainAdmissible(flow, Google);
    GoogleChainSteps(a, t, c);
    var r := Pick(flow, c);
    forall p | 0 < p < |r|
      ensures r[p - 1].length <= r[p].length && r[p].time - r[p - 1].time <= 3000
      ensures p > 1 ==> !(r[p].length == r[p - 1].length && r[p - 1].length == r[p - 2].length)
    {
      assert a[c[p]] == r[p].length && a[c[p - 1]] == r[p - 1].length;
      assert t[c[p]] == r[p].time && t[c[p - 1]] == r[p - 1].time;
      if p > 1 {
        assert a[c[p - 2]] == r[p - 2].length;
      }
    }
  }

  /** Baidu keystrokes grow by 2 to 30 bytes from one to the next. */
  lemma BaiduKeystrokeSteps(rows: seq<Row>)
    ensures BaiduSteps(Detect(rows, Baidu))
  {
    var df := Candidates(rows);
    var keys := FlowKeys(df);
    var b := BestIndex(FlowChains(df, keys, Baidu));
    DetectFromBestFlow(rows, Baidu);
    if b >= 0 {
      var chain := FlowChain(FlowRows(df, keys[b]), Baidu);
      BaiduFlowChainSteps(FlowRows(df, keys[b]));
      var n :| 0 <= n <= |chain| && Detect(rows, Baidu) == chain[..n];
      BaiduStepsPrefix(chain, n);
    }
  }

  /** Google keystrokes never shrink, follow each other within 3000 ms, and
      never keep the same length three times in a row. */
  lemma GoogleKeystrokeSteps(rows: seq<Row>)
    ensures GoogleSteps(Detect(rows, Google))
  {
    var df := Candidates(rows);
    var keys := FlowKeys(df);
    var b := BestIndex(FlowChains(df, keys, Google));
    DetectFromBestFlow(rows, Google);
    if b >= 0 {
      var chain := FlowChain(FlowRows(df, keys[b]), Google);
      GoogleFlowChainSteps(FlowRows(df, keys[b]));
      var n :| 0 <= n <= |chain| && Detect(rows, Google) == chain[..n];
      GoogleStepsPrefix(chain, n);
    }
  }

  /** Every listed flow has rows. */
  lemma ListedFlowHasRows(df: seq<Row>, k: FlowKey)
    requires k in FlowKeys(df)
    ensures |FlowRows(df, k)| > 0
  {
    FlowKeysMembers(df);
    FlowRowsMembers(df, k);
    var x :| x in df && KeyOf(x) == k;
    assert x in FlowRows(df, k);
  }

  /** Trying one more flow appends its chain to the chains tried. */
  lemma FlowChainsSnoc(df: seq<Row>, keys: seq<FlowKey>, p: nat, rule: Rule)
    requires p < |keys|
    ensures FlowChains(df, keys[..p + 1], rule) == FlowChains(df, keys[..p], rule) + [FlowChain(FlowRows(df, keys[p]), rule)]
  {
    assert keys[..p + 1][..p] == keys[..p];
  }

  /** Trying one more chain keeps it when it is strictly longer than the
      chain held. */
  lemma BestOfSnoc(cs: seq<seq<Row>>, c: seq<Row>)
    ensures BestOf(cs + [c]) == if |c| > |BestOf(cs)| then c else BestOf(cs)
  {
    assert (cs + [c])[..|cs|] == cs;
  }

  /** The chain of one non-empty flow, found by the dynamic programme. */
  method FlowChainOf(flow: seq<Row>, rule: Rule) returns (chain: seq<Row>)
    requires |flow| > 0
    ensures chain == FlowChain(flow, rule)
  {
    var a, t := LengthColumn(flow), TimeColumn(flow);
    var c := LongestDfaSequence(a, t, RuleFn(rule));
    chain := Pick(flow, c);
  }

  /** detect_keystrokes, flow by flow. */
  method DetectKeystrokes(rows: seq<Row>, rule: Rule) returns (result: seq<Row>)
    ensures result == Detect(rows, rule)
  {
    var df := Candidates(rows);
    result := LongestFlowChain(df, FlowKeys(df), rule);
    result := PostFilter(result, rule);
  }

  /** The loop over the flows of detect_keystrokes: the chain of each flow
      replaces the one held when strictly longer. */
  method LongestFlowChain(df: seq<Row>, keys: seq<FlowKey>, rule: Rule) returns (result: seq<Row>)
    requires keys == FlowKeys(df)
    ensures result == BestOf(FlowChains(df, keys, rule))
  {
    result := [];
    var p := 0;
    while p < |keys|
      invariant 0 <= p <= |keys|
      invariant result == BestOf(FlowChains(df, keys[..p], rule))
    {
      var flow := FlowRows(df, keys[p]);
      assert keys[p] in keys;
      ListedFlowHasRows(df, keys[p]);
      var chain := FlowChainOf(flow, rule);
      FlowChainsSnoc(df, keys, p, rule);
      BestOfSnoc(FlowChains(df, keys[..p], rule), chain);
      if |chain| > |result| {
        result := chain;
      }
      p := p + 1;
    }
    assert keys[..p] == keys;
  }

  /** The rules in registry order, tried one after the other: a website's
      keystrokes replace the held ones only when strictly longer. */
  function ChooseWebsite(rows: seq<Row>, rules: seq<Rule>): (string, seq<Row>)
  {
    if |rules| == 0 then ("", [])
    else
      var held := ChooseWebsite(rows, rules[..|rules| - 1]);
      var keystrokes := Detect(rows, rules[|rules| - 1]);
      if |keystrokes| > |held.1| then (RuleName(rules[|rules| - 1]), keystrokes) else held
  }

  /** detect_website_keystrokes: baidu wins only when strictly longer than
      google; google wins when it found anything; else nothing is found. */
  method DetectWebsiteKeystrokes(rows: seq<Row>) returns (website: string, keystrokes: seq<Row>)
    ensures var g, b := Detect(rows, Google), Detect(rows, Baidu);
      if |b| > |g| then website == "baidu" && keystrokes == b
      else if |g| > 0 then website == "google" && keystrokes == g
      else website == "" && keystrokes == []
  {
    website, keystrokes := "", [];
    var p := 0;
    while p < |RULES|
      invariant 0 <= p <= |RULES|
      invariant (website, keystrokes) == ChooseWebsite(rows, RULES[..p])
    {
      var found := DetectKeystrokes(rows, RULES[p]);
      assert RULES[..p + 1][..p] == RULES[..p];
      if |found| > |keystrokes| {
        website, keystrokes := RuleName(RULES[p]), found;
      }
      p := p + 1;
    }
    assert RULES[..1] == [Google] && RULES[..2] == RULES;
  }
}
