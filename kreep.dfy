/** The reduced keystroke pipeline of esqabe/kreep/kreep.py: load a capture,
    detect the keystrokes, drop those misread around bursts of incoming
    traffic, and count the word lengths of the tokens. */
module Kreep {
  import opened Common
  import opened Buckets
  import opened Packets
  import opened KreepUtil
  import opened Detection

  /** Incoming traffic is grouped into windows of this many milliseconds. */
  const SPIKE_WINDOW := 500
  /** A window whose total length exceeds this is a spike. */
  const SPIKE_VOLUME := 100000

  // ---------------------------------------------------------------------
  // estimate_network_spikes

  /** The (time, length) columns of a list of rows. */
  function Samples(rows: seq<Row>): (s: seq<Sample>)
    ensures |s| == |rows|
    ensures forall i :: 0 <= i < |rows| ==> s[i] == Sample(rows[i].time, rows[i].length)
  {
    seq(|rows|, i requires 0 <= i < |rows| => Sample(rows[i].time, rows[i].length))
  }

  /** Puts `x` into an ascending list unless it is there already. */
  function Insert(sorted: seq<int>, x: int): (r: seq<int>)
    requires forall p, q :: 0 <= p < q < |sorted| ==> sorted[p] < sorted[q]
    ensures forall p, q :: 0 <= p < q < |r| ==> r[p] < r[q]
    ensures forall y :: y in r <==> y in sorted || y == x
  {
    if |sorted| == 0 then [x]
    else if x < sorted[0] then [x] + sorted
    else if x == sorted[0] then sorted
    else
      var rest := Insert(sorted[1..], x);
      assert forall y :: y in sorted <==> y == sorted[0] || y in sorted[1..];
      assert forall q :: 0 <= q < |rest| ==> sorted[0] < rest[q] by {
        forall q | 0 <= q < |rest| ensures sorted[0] < rest[q] {
          assert rest[q] in sorted[1..] || rest[q] == x;
        }
      }
      [sorted[0]] + rest
  }

  /** The distinct values of `xs` in ascending order, as the index of a
      grouped frame lists its keys. */
  function Ascending(xs: seq<int>): (r: seq<int>)
    ensures forall p, q :: 0 <= p < q < |r| ==> r[p] < r[q]
    ensures forall y :: y in r <==> y in xs
  {
    if |xs| == 0 then []
    else
      var init := xs[..|xs| - 1];
      assert forall y :: y in xs <==> y in init || y == xs[|xs| - 1] by {
        assert xs == init + [xs[|xs| - 1]];
      }
      Insert(Ascending(init), xs[|xs| - 1])
  }

  /** The keys of an ascending list whose grouped sum exceeds the spike volume. */
  function Heavy(keys: seq<int>, agg: map<int, int>): (r: seq<int>)
    ensures forall y :: y in r <==> y in keys && y in agg && agg[y] > SPIKE_VOLUME
    ensures (forall p, q :: 0 <= p < q < |keys| ==> keys[p] < keys[q]) ==>
      forall p, q :: 0 <= p < q < |r| ==> r[p] < r[q]
  {
    if |keys| == 0 then []
    else
      var rest := Heavy(keys[1..], agg);
      assert forall y :: y in keys <==> y == keys[0] || y in keys[1..];
      if keys[0] in agg && agg[keys[0]] > SPIKE_VOLUME then
        assert (forall p, q :: 0 <= p < q < |keys| ==> keys[p] < keys[q]) ==>
          forall q :: 0 <= q < |rest| ==> keys[0] < rest[q] by {
          if forall p, q :: 0 <= p < q < |keys| ==> keys[p] < keys[q] {
            forall q | 0 <= q < |rest| ensures keys[0] < rest[q] {
              assert rest[q] in rest;
              var i :| 0 <= i < |keys[1..]| && keys[1..][i] == rest[q];
              assert keys[i + 1] == rest[q];
            }
          }
        }
        [keys[0]] + rest
      else rest
  }

  /** estimate_network_spikes: the 500 ms windows of the incoming traffic
      whose total length exceeds 100000, earliest first. */
  function NetworkSpikes(trace: seq<Row>): (spikes: seq<int>)
  {
    var s := Samples(trace);
    var agg := Aggregate(s, SPIKE_WINDOW);
    Heavy(Ascending(BucketKeys(s, SPIKE_WINDOW)), agg)
  }

  /** The bucket of every sample, in sample order. */
  function BucketKeys(s: seq<Sample>, w: nat): (r: seq<int>)
    requires w > 0
    ensures |r| == |s|
    ensures forall i :: 0 <= i < |s| ==> r[i] == BucketOf(s[i].time, w)
  {
    seq(|s|, i requires 0 <= i < |s| => BucketOf(s[i].time, w))
  }

  /** The spikes are exactly the 500 ms-aligned windows [k, k + 500) whose
      frames carry more than 100000 bytes in total, in ascending order. */
  lemma SpikesAreHeavyWindows(trace: seq<Row>)
    ensures var spikes := NetworkSpikes(trace);
      (forall p, q :: 0 <= p < q < |spikes| ==> spikes[p] < spikes[q]) &&
      (forall k :: k in spikes <==>
        k % SPIKE_WINDOW == 0 && SumIn(Samples(trace), k, k + SPIKE_WINDOW) > SPIKE_VOLUME)
  {
    var s := Samples(trace);
    var agg := Aggregate(s, SPIKE_WINDOW);
    forall k ensures k in NetworkSpikes(trace) <==>
      k % SPIKE_WINDOW == 0 && SumIn(s, k, k + SPIKE_WINDOW) > SPIKE_VOLUME
    {
      if k % SPIKE_WINDOW == 0 {
        BucketSumIsWindowSum(s, SPIKE_WINDOW, k);
        if k !in agg {
          UnoccupiedBucketIsEmpty(s, SPIKE_WINDOW, k);
        }
      }
      if k in agg {
        var i :| 0 <= i < |s| && BucketOf(s[i].time, SPIKE_WINDOW) == k;
        assert k % SPIKE_WINDOW == 0;
        assert BucketKeys(s, SPIKE_WINDOW)[i] == k;
      }
    }
  }

  // ---------------------------------------------------------------------
  // The spike-trimming loop of mini_kreep

  /** The keystrokes sent no later than `spike` (`keystrokes[spike_grouped]`). */
  function UpTo(ks: seq<Row>, spike: int): (r: seq<Row>)
    ensures |r| <= |ks|
  {
    if |ks| == 0 then []
    else (if ks[0].time <= spike then [ks[0]] else []) + UpTo(ks[1..], spike)
  }

  /** The keystrokes sent after `spike` (`keystrokes[~spike_grouped]`). */
  function After(ks: seq<Row>, spike: int): (r: seq<Row>)
    ensures |r| <= |ks|
  {
    if |ks| == 0 then []
    else (if ks[0].time > spike then [ks[0]] else []) + After(ks[1..], spike)
  }

  /** Every keystroke is on exactly one side of a spike. */
  lemma {:induction false} SidesPartition(ks: seq<Row>, spike: int)
    ensures |UpTo(ks, spike)| + |After(ks, spike)| == |ks|
  {
    if |ks| > 0 {
      SidesPartition(ks[1..], spike);
    }
  }

  /** One spike's verdict on the keystrokes still held, `n` being how many
      keystrokes were detected before any trimming. */
  datatype Verdict =
    | AllBefore   // every keystroke precedes the spike: stop, keep them all
    | AllAfter    // none precedes it: look at the next spike
    | CutBack     // more than two thirds precede it: keep those and stop
    | CutFront    // fewer than a third precede it: drop those and go on
    | Ambiguous   // a spike amid the keystrokes: keep them and go on

  /** The branch the loop takes when `s` of the held keystrokes precede the spike. */
  function Judge(s: nat, n: nat): (v: Verdict)
    ensures v == AllBefore <==> s == n
    ensures v == AllAfter <==> s == 0 && n != 0
    ensures v == CutBack <==> s != 0 && (2 * n) / 3 < s < n
    ensures v == CutFront <==> 0 < s && s < (n + 2) / 3 && !((2 * n) / 3 < s < n) && s != n
    ensures v == Ambiguous <==> 0 < s && s != n && !((2 * n) / 3 < s < n) && (n + 2) / 3 <= s
  {
    if s == n then AllBefore
    else if s == 0 then AllAfter
    else if (2 * n) / 3 < s < n then CutBack
    else if 0 < s < (n + 2) / 3 then CutFront
    else Ambiguous
  }

  /** The keystrokes left after visiting `spikes` in order, holding `ks`. */
  function Trim(ks: seq<Row>, n: nat, spikes: seq<int>): seq<Row>
    decreases |spikes|
  {
    if |spikes| == 0 then ks
    else
      match Judge(|UpTo(ks, spikes[0])|, n)
      case AllBefore => ks
      case CutBack => UpTo(ks, spikes[0])
      case CutFront => Trim(After(ks, spikes[0]), n, spikes[1..])
      case _ => Trim(ks, n, spikes[1..])
  }

  /** The loop over the spikes in mini_kreep; `n` is not recomputed after a
      front cut. */
  method TrimAtSpikes(keystrokes: seq<Row>, spikes: seq<int>) returns (kept: seq<Row>)
    ensures kept == Trim(keystrokes, |keystrokes|, spikes)
  {
    var n := |keystrokes|;
    kept := keystrokes;
    var i := 0;
    while i < |spikes|
      invariant 0 <= i <= |spikes|
      invariant Trim(kept, n, spikes[i..]) == Trim(keystrokes, n, spikes)
    {
      var spike := spikes[i];
      var grouped := UpTo(kept, spike);
      var s := |grouped|;
      assert spikes[i..][1..] == spikes[i + 1..];
      if s == n {
        break;
      } else if s == 0 {
        i := i + 1;
        continue;
      } else if (2 * n) / 3 < s < n {
        kept := grouped;
        break;
      } else if 0 < s < (n + 2) / 3 {
        kept := After(kept, spike);
      }
      i := i + 1;
    }
    if i == |spikes| {
      assert spikes[i..] == [];
    }
  }

  /** The keystrokes whose time lies in (lo, hi]; a missing bound is unbounded. */
  function Window(ks: seq<Row>, lo: Option<int>, hi: Option<int>): (r: seq<Row>)
    ensures |r| <= |ks|
  {
    if |ks| == 0 then []
    else
      var t := ks[0].time;
      var inside := (lo.None? || lo.value < t) && (hi.None? || t <= hi.value);
      (if inside then [ks[0]] else []) + Window(ks[1..], lo, hi)
  }

  /** `y` is what remains of `x` after deleting some of its elements. */
  predicate SubsequenceOf(y: seq<Row>, x: seq<Row>)
    decreases |x|
  {
    if |y| == 0 then true
    else if |x| == 0 then false
    else if y[0] == x[0] then SubsequenceOf(y[1..], x[1..])
    else SubsequenceOf(y, x[1..])
  }

  function Later(lo: Option<int>, spike: int): int
  {
    if lo.Some? && lo.value > spike then lo.value else spike
  }

  lemma {:induction false} WindowAll(ks: seq<Row>)
    ensures Window(ks, None, None) == ks
  {
    if |ks| > 0 {
      WindowAll(ks[1..]);
      assert [ks[0]] + ks[1..] == ks;
    }
  }

  lemma {:induction false} AfterWindow(ks: seq<Row>, lo: Option<int>, spike: int)
    ensures After(Window(ks, lo, None), spike) == Window(ks, Some(Later(lo, spike)), None)
  {
    if |ks| > 0 {
      AfterWindow(ks[1..], lo, spike);
      var w := Window(ks, lo, None);
      var rest := Window(ks[1..], lo, None);
      if lo.None? || lo.value < ks[0].time {
        assert w == [ks[0]] + rest;
        assert w[1..] == rest;
      } else {
        assert w == rest;
      }
    }
  }

  lemma {:induction false} UpToWindow(ks: seq<Row>, lo: Option<int>, spike: int)
    ensures UpTo(Window(ks, lo, None), spike) == Window(ks, lo, Some(spike))
  {
    if |ks| > 0 {
      UpToWindow(ks[1..], lo, spike);
      var w := Window(ks, lo, None);
      var rest := Window(ks[1..], lo, None);
      if lo.None? || lo.value < ks[0].time {
        assert w == [ks[0]] + rest;
        assert w[1..] == rest;
      } else {
        assert w == rest;
      }
    }
  }

  lemma {:induction false} WindowIsSubsequence(ks: seq<Row>, lo: Option<int>, hi: Option<int>)
    ensures SubsequenceOf(Window(ks, lo, hi), ks)
  {
    if |ks| > 0 {
      WindowIsSubsequence(ks[1..], lo, hi);
      var w := Window(ks, lo, hi);
      var rest := Window(ks[1..], lo, hi);
      if w != rest {
        assert w == [ks[0]] + rest;
        assert w[1..] == rest;
      } else {
        SubsequenceSkip(rest, ks);
      }
    }
  }

  /** A subsequence of the tail is a subsequence of the whole. */
  lemma {:induction false} SubsequenceSkip(y: seq<Row>, x: seq<Row>)
    requires |x| > 0 && SubsequenceOf(y, x[1..])
    ensures SubsequenceOf(y, x)
    decreases |x|, 1
  {
    if |y| > 0 && y[0] == x[0] {
      SubsequenceDropHead(y, x[1..]);
    }
  }

  /** Dropping the first element of a subsequence keeps it a subsequence. */
  lemma {:induction false} SubsequenceDropHead(y: seq<Row>, z: seq<Row>)
    requires |y| > 0 && SubsequenceOf(y, z)
    ensures SubsequenceOf(y[1..], z)
    decreases |z| + 1, 0
  {
    assert |z| > 0;
    if y[0] == z[0] {
      SubsequenceSkip(y[1..], z);
    } else {
      SubsequenceDropHead(y, z[1..]);
      SubsequenceSkip(y[1..], z);
    }
  }

  /** Trimming keeps the keystrokes of one time window: it drops a prefix of
      early keystrokes at each front cut and, at a back cut, the late ones. */
  lemma {:induction false} TrimIsWindow(ks: seq<Row>, lo: Option<int>, n: nat, spikes: seq<int>)
    ensures exists lo', hi :: Trim(Window(ks, lo, None), n, spikes) == Window(ks, lo', hi)
    decreases |spikes|
  {
    var held := Window(ks, lo, None);
    if |spikes| == 0 {
      assert Trim(held, n, spikes) == Window(ks, lo, None);
    } else {
      var spike := spikes[0];
      match Judge(|UpTo(held, spike)|, n)
      case AllBefore =>
        assert Trim(held, n, spikes) == Window(ks, lo, None);
      case CutBack =>
        UpToWindow(ks, lo, spike);
        assert Trim(held, n, spikes) == Window(ks, lo, Some(spike));
      case CutFront =>
        AfterWindow(ks, lo, spike);
        TrimIsWindow(ks, Some(Later(lo, spike)), n, spikes[1..]);
      case AllAfter =>
        TrimIsWindow(ks, lo, n, spikes[1..]);
      case Ambiguous =>
        TrimIsWindow(ks, lo, n, spikes[1..]);
    }
  }

  /** In every case the trimmed keystrokes are a subsequence of the detected
      ones: all those sent within one time window (lo, hi]. */
  lemma TrimKeepsWindow(ks: seq<Row>, spikes: seq<int>)
    ensures var kept := Trim(ks, |ks|, spikes);
      SubsequenceOf(kept, ks) && exists lo, hi :: kept == Window(ks, lo, hi)
  {
    WindowAll(ks);
    TrimIsWindow(ks, None, |ks|, spikes);
    var lo, hi :| Trim(ks, |ks|, spikes) == Window(ks, lo, hi);
    WindowIsSubsequence(ks, lo, hi);
  }

  // ---------------------------------------------------------------------
  // word_lengths

  function MaxOf(xs: seq<nat>): (m: nat)
    requires |xs| > 0
    ensures m in xs && forall k :: 0 <= k < |xs| ==> xs[k] <= m
  {
    if |xs| == 1 then xs[0]
    else
      var m := MaxOf(xs[..|xs| - 1]);
      assert forall k :: 0 <= k < |xs| - 1 ==> xs[..|xs| - 1][k] == xs[k];
      if xs[|xs| - 1] > m then xs[|xs| - 1] else m
  }

  /** The word-length counts of `tokens`: one slot per token value up to the
      largest, each slot but the last started at -1 and every token adding
      one to its slot. */
  predicate IsWordLengths(tokens: seq<nat>, counts: seq<int>)
    requires |tokens| > 0
  {
    var top := MaxOf(tokens);
    |counts| == top + 1 &&
    (forall k :: 0 <= k < top ==> counts[k] == Count<nat>(tokens, k) - 1) &&
    counts[top] == Count<nat>(tokens, top)
  }

  /** The counting loop over the tokens, on an array of slots. */
  method WordLengths(tokens: seq<nat>) returns (counts: seq<int>)
    requires |tokens| > 0
    ensures IsWordLengths(tokens, counts)
  {
    var top := MaxOf(tokens);
    var w := new int[top + 1](k => if k < top then -1 else 0);
    var i := 0;
    while i < |tokens|
      invariant 0 <= i <= |tokens|
      invariant forall k :: 0 <= k < top ==> w[k] == Count<nat>(tokens[..i], k) - 1
      invariant w[top] == Count<nat>(tokens[..i], top)
    {
      var tok := tokens[i];
      assert tokens[..i + 1][..i] == tokens[..i];
      w[tok] := w[tok] + 1;
      i := i + 1;
    }
    assert tokens[..i] == tokens;
    counts := w[..];
  }

  function SumOf(s: seq<int>): int
  {
    if |s| == 0 then 0 else SumOf(s[..|s| - 1]) + s[|s| - 1]
  }

  /** The number of tokens below `j`, counted slot by slot. */
  function CountBelow(tokens: seq<nat>, j: nat): nat
  {
    if j == 0 then 0 else CountBelow(tokens, j - 1) + Count<nat>(tokens, j - 1)
  }

  lemma {:induction false} CountBelowSnoc(init: seq<nat>, x: nat, j: nat)
    ensures CountBelow(init + [x], j) == CountBelow(init, j) + (if x < j then 1 else 0)
  {
    assert (init + [x])[..|init + [x]| - 1] == init;
    if j > 0 {
      CountBelowSnoc(init, x, j - 1);
    }
  }

  /** Every token lies in one slot. */
  lemma {:induction false} CountBelowAll(tokens: seq<nat>, j: nat)
    requires forall k :: 0 <= k < |tokens| ==> tokens[k] < j
    ensures CountBelow(tokens, j) == |tokens|
  {
    if |tokens| > 0 {
      var init, x := tokens[..|tokens| - 1], tokens[|tokens| - 1];
      assert forall k :: 0 <= k < |init| ==> init[k] == tokens[k];
      CountBelowAll(init, j);
      CountBelowSnoc(init, x, j);
      assert init + [x] == tokens;
    } else {
      CountBelowNone(tokens, j);
    }
  }

  lemma CountBelowNext(tokens: seq<nat>, j: nat)
    ensures CountBelow(tokens, j + 1) == CountBelow(tokens, j) + Count<nat>(tokens, j)
  {
  }

  lemma {:induction false} CountBelowNone(tokens: seq<nat>, j: nat)
    requires |tokens| == 0
    ensures CountBelow(tokens, j) == 0
  {
    if j > 0 {
      CountBelowNone(tokens, j - 1);
    }
  }

  lemma {:induction false} SlotsBelow(tokens: seq<nat>, counts: seq<int>, j: nat)
    requires |tokens| > 0 && IsWordLengths(tokens, counts) && j <= MaxOf(tokens)
    ensures SumOf(counts[..j]) == CountBelow(tokens, j) - j
  {
    if j > 0 {
      SlotsBelow(tokens, counts, j - 1);
      assert counts[..j][..j - 1] == counts[..j - 1];
    }
  }

  /** The word lengths add up to the number of keystrokes less one space per
      word boundary: the count of tokens minus the largest token. */
  lemma WordLengthsTotal(tokens: seq<nat>, counts: seq<int>)
    requires |tokens| > 0 && IsWordLengths(tokens, counts)
    ensures SumOf(counts) == |tokens| - MaxOf(tokens)
  {
    var top := MaxOf(tokens);
    SlotsBelow(tokens, counts, top);
    assert counts[..|counts| - 1] == counts[..top];
    assert SumOf(counts) == SumOf(counts[..top]) + counts[top];
    CountBelowAll(tokens, top + 1);
    CountBelowNext(tokens, top);
  }

  // ---------------------------------------------------------------------
  // mini_kreep

  /** Python's ordering of strings: by code point, a prefix first. */
  predicate StrLeq(x: string, y: string)
    decreases |x|
  {
    |x| == 0 || (|y| > 0 && (x[0] < y[0] || (x[0] == y[0] && StrLeq(x[1..], y[1..]))))
  }

  lemma {:induction false} StrLeqTotal(x: string, y: string)
    ensures StrLeq(x, y) || StrLeq(y, x)
    decreases |x|
  {
    if |x| > 0 && |y| > 0 && x[0] == y[0] {
      StrLeqTotal(x[1..], y[1..]);
    }
  }

  function LatestTime(ks: seq<Row>): (m: int)
    requires |ks| > 0
    ensures exists k :: 0 <= k < |ks| && ks[k].time == m
    ensures forall k :: 0 <= k < |ks| ==> ks[k].time <= m
  {
    if |ks| == 1 then ks[0].time
    else
      var m := LatestTime(ks[..|ks| - 1]);
      assert forall k :: 0 <= k < |ks| - 1 ==> ks[..|ks| - 1][k] == ks[k];
      if ks[|ks| - 1].time > m then ks[|ks| - 1].time else m
  }

  function LongestFrame(ks: seq<Row>): (m: int)
    requires |ks| > 0
    ensures exists k :: 0 <= k < |ks| && ks[k].length == m
    ensures forall k :: 0 <= k < |ks| ==> ks[k].length <= m
  {
    if |ks| == 1 then ks[0].length
    else
      var m := LongestFrame(ks[..|ks| - 1]);
      assert forall k :: 0 <= k < |ks| - 1 ==> ks[..|ks| - 1][k] == ks[k];
      if ks[|ks| - 1].length > m then ks[|ks| - 1].length else m
  }

  function GreatestDst(ks: seq<Row>): (m: string)
    requires |ks| > 0
    ensures exists k :: 0 <= k < |ks| && ks[k].dst == m
    ensures forall k :: 0 <= k < |ks| ==> StrLeq(ks[k].dst, m)
  {
    if |ks| == 1 then StrLeqRefl(ks[0].dst); ks[0].dst
    else
      var m := GreatestDst(ks[..|ks| - 1]);
      var d := ks[|ks| - 1].dst;
      assert forall k :: 0 <= k < |ks| - 1 ==> ks[..|ks| - 1][k] == ks[k];
      StrLeqTotal(d, m);
      StrLeqRefl(d);
      if StrLeq(d, m) then m
      else
        assert forall k :: 0 <= k < |ks| - 1 ==> StrLeq(ks[k].dst, d) by {
          forall k | 0 <= k < |ks| - 1 ensures StrLeq(ks[k].dst, d) {
            StrLeqTrans(ks[k].dst, m, d);
          }
        }
        d
  }

  lemma {:induction false} StrLeqRefl(x: string)
    ensures StrLeq(x, x)
    decreases |x|
  {
    if |x| > 0 {
      StrLeqRefl(x[1..]);
    }
  }

  lemma {:induction false} StrLeqTrans(x: string, y: string, z: string)
    requires StrLeq(x, y) && StrLeq(y, z)
    ensures StrLeq(x, z)
    decreases |x|
  {
    if |x| > 0 && x[0] == y[0] && y[0] == z[0] {
      StrLeqTrans(x[1..], y[1..], z[1..]);
    }
  }

  /** What mini_kreep returns: the word lengths, the latest keystroke time,
      the greatest destination, the longest keystroke frame, and the
      outgoing rows of the capture. */
  datatype KreepResult = KreepResult(wordLengths: seq<int>, latest: int, dst: string, highest: int, outgoing: seq<Row>)

  /** mini_kreep. The website, when given, names a detection rule; the word
      tokenizer is not part of this model and is passed in. It receives the
      kept keystrokes, the website name (the given one, or the one detection
      chose: "baidu", "google" or "") and the maximum word length. The source
      fails (`Err`) when the tokenizer does not give one token per kept
      keystroke or gives none. */
  method MiniKreep(frames: seq<Frame>, maxWordLen: nat, website: Option<Rule>,
                   tokenize: (seq<Row>, string, nat) -> seq<nat>,
                   cache: GoogleCache, reverseDns: string -> Option<string>)
    returns (r: Result<KreepResult, string>)
    modifies cache
    ensures var isGoogle := a => CachedAnswer(old(cache.known), reverseDns, a);
      var name := if website.Some? then Some(RuleName(website.value)) else None;
      var split := SplitRows(frames, name, isGoogle);
      var g, b := Detect(split.0, Google), Detect(split.0, Baidu);
      var found := if website.Some? then Detect(split.0, website.value) else if |b| > |g| then b else g;
      var site := if website.Some? then RuleName(website.value)
                  else if |b| > |g| then "baidu" else if |g| > 0 then "google" else "";
      var kept := Trim(found, |found|, NetworkSpikes(split.1));
      var tokens := tokenize(kept, site, maxWordLen);
      if |tokens| == 0 || |tokens| != |kept| then r.Err?
      else (r.Ok? && r.value.outgoing == split.0 &&
        SubsequenceOf(kept, found) &&
        IsWordLengths(tokens, r.value.wordLengths) &&
        r.value.latest == LatestTime(kept) && r.value.dst == GreatestDst(kept) &&
        r.value.highest == LongestFrame(kept))
  {
    var name := if website.Some? then Some(RuleName(website.value)) else None;
    var pcap, pcapIn := LoadPcap(frames, name, cache, reverseDns);
    var site, keystrokes;
    if website.None? {
      site, keystrokes := DetectWebsiteKeystrokes(pcap);
    } else {
      site := RuleName(website.value);
      keystrokes := DetectKeystrokes(pcap, website.value);
    }
    var spikes := NetworkSpikes(pcapIn);
    var found := keystrokes;
    keystrokes := TrimAtSpikes(keystrokes, spikes);
    TrimKeepsWindow(found, spikes);
    var tokens := tokenize(keystrokes, site, maxWordLen);
    if |tokens| == 0 || |tokens| != |keystrokes| {
      return Err("tokens do not match the keystrokes");
    }
    var counts := WordLengths(tokens);
    r := Ok(KreepResult(counts, LatestTime(keystrokes), GreatestDst(keystrokes), LongestFrame(keystrokes), pcap));
  }
}
