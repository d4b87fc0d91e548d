/** The helpers of the pipeline: rendering MAC addresses, the Wikipedia host
    test, and the two in-place edits of the word counter that ranks the
    phrases found on the guessed websites. */
module Utils {
  import opened Common

  // ---------------------------------------------------------------------
  // MAC addresses

  newtype byte = x: int | 0 <= x < 256

  /** One lower-case hexadecimal digit. */
  function HexDigit(d: nat): (c: char)
    requires d < 16
    ensures '0' <= c <= '9' || 'a' <= c <= 'f'
  {
    if d < 10 then ('0' as int + d) as char else ('a' as int + d - 10) as char
  }

  /** The value of a lower-case hexadecimal digit. */
  function HexValue(c: char): (r: Option<nat>)
    ensures r.Some? ==> r.value < 16
  {
    if '0' <= c <= '9' then Some(c as int - '0' as int)
    else if 'a' <= c <= 'f' then Some(c as int - 'a' as int + 10)
    else None
  }

  /** `'%02x' % b`: two lower-case hexadecimal digits. */
  function HexByte(b: byte): (r: string)
    ensures |r| == 2 && ':' !in r
  {
    [HexDigit(b as int / 16), HexDigit(b as int % 16)]
  }

  /** `mac_addr`: the bytes in hexadecimal, joined by colons. */
  function MacAddr(address: seq<byte>): string
  {
    Join(HexBytes(address), ":")
  }

  function HexBytes(address: seq<byte>): (r: seq<string>)
    ensures |r| == |address|
    ensures forall i :: 0 <= i < |address| ==> r[i] == HexByte(address[i])
  {
    seq(|address|, i requires 0 <= i < |address| => HexByte(address[i]))
  }

  /** Groups of two characters joined by single colons: two characters per
      group plus one colon between neighbours. */
  lemma {:induction false} JoinPairsLength(parts: seq<string>)
    requires |parts| > 0 && forall i :: 0 <= i < |parts| ==> |parts[i]| == 2
    ensures |Join(parts, ":")| == 3 * |parts| - 1
    decreases |parts|
  {
    if |parts| > 1 {
      JoinPairsLength(parts[1..]);
    }
  }

  /** `mac_addr` renders n bytes as n two-digit groups and n - 1 colons. */
  lemma MacAddrLength(address: seq<byte>)
    requires |address| > 0
    ensures |MacAddr(address)| == 3 * |address| - 1
  {
    JoinPairsLength(HexBytes(address));
  }

  /** Reading one two-digit group back. */
  function ParseByte(s: string): Option<byte>
  {
    if |s| != 2 then None
    else match (HexValue(s[0]), HexValue(s[1]))
      case (Some(h), Some(l)) => Some((16 * h + l) as byte)
      case _ => None
  }

  function ParseBytes(groups: seq<string>): Option<seq<byte>>
  {
    if |groups| == 0 then Some([])
    else match (ParseBytes(groups[..|groups| - 1]), ParseByte(groups[|groups| - 1]))
      case (Some(init), Some(b)) => Some(init + [b])
      case _ => None
  }

  /** Reading a colon-separated address back. */
  function ParseMac(s: string): Option<seq<byte>>
  {
    ParseBytes(Split(s, ':'))
  }

  lemma HexByteRoundTrip(b: byte)
    ensures ParseByte(HexByte(b)) == Some(b)
  {
    var h, l := b as int / 16, b as int % 16;
    assert HexValue(HexDigit(h)) == Some(h);
    assert HexValue(HexDigit(l)) == Some(l);
  }

  lemma {:induction false} ParseBytesHex(address: seq<byte>)
    ensures ParseBytes(HexBytes(address)) == Some(address)
  {
    if |address| > 0 {
      var init := address[..|address| - 1];
      assert HexBytes(address)[..|address| - 1] == HexBytes(init);
      ParseBytesHex(init);
      HexByteRoundTrip(address[|address| - 1]);
      assert init + [address[|address| - 1]] == address;
    }
  }

  /** A rendered address reads back as the same bytes. */
  lemma MacAddrRoundTrip(address: seq<byte>)
    requires |address| > 0
    ensures ParseMac(MacAddr(address)) == Some(address)
  {
    SplitJoin(HexBytes(address), ':');
    ParseBytesHex(address);
  }

  // ---------------------------------------------------------------------
  // Wikipedia hosts

  const KNOWN_WIKI_NAMES: seq<string> := ["wikipedia.org", "wikimedia.org"]

  /** `is_from_wiki`: the name holds one of the known Wikipedia host names. */
  predicate IsFromWiki(domain: string)
  {
    exists k :: 0 <= k < |KNOWN_WIKI_NAMES| && Contains(domain, KNOWN_WIKI_NAMES[k])
  }

  /** A name that holds a Wikipedia name is a Wikipedia name: the test
      accepts every subdomain and every longer name around a match. */
  lemma WikiNameInside(outer: string, inner: string)
    requires Contains(outer, inner) && IsFromWiki(inner)
    ensures IsFromWiki(outer)
  {
    var k :| 0 <= k < |KNOWN_WIKI_NAMES| && Contains(inner, KNOWN_WIKI_NAMES[k]);
    ContainsTrans(outer, inner, KNOWN_WIKI_NAMES[k]);
  }

  /** Language hosts of Wikipedia pass the test. */
  lemma LanguageHostIsWiki(lang: string)
    ensures IsFromWiki(lang + ".wikipedia.org")
  {
    var d := lang + ".wikipedia.org";
    assert d[|lang| + 1..|lang| + 1 + 13] == "wikipedia.org";
    assert OccursAt(d, KNOWN_WIKI_NAMES[0], |lang| + 1);
  }

  // ---------------------------------------------------------------------
  // Counters

  /** An item of `Counter.most_common()`: a key and its count. */
  type Entry = (string, int)

  /** Python's `counter[k]`: a missing key counts zero. */
  function Get(m: map<string, int>, k: string): int
  {
    if k in m then m[k] else 0
  }

  function KeysOf(list: seq<Entry>): (ks: seq<string>)
    ensures |ks| == |list|
    ensures forall i :: 0 <= i < |list| ==> ks[i] == list[i].0
  {
    seq(|list|, i requires 0 <= i < |list| => list[i].0)
  }

  predicate Distinct(ks: seq<string>)
  {
    forall i, j :: 0 <= i < j < |ks| ==> ks[i] != ks[j]
  }

  /** `counter.most_common()`: every item exactly once, counts not increasing. */
  predicate MostCommon(m: map<string, int>, order: seq<Entry>)
  {
    && Distinct(KeysOf(order))
    && (forall k :: k in m ==> k in KeysOf(order))
    && (forall i :: 0 <= i < |order| ==> order[i].0 in m && m[order[i].0] == order[i].1)
    && (forall i, j :: 0 <= i < j < |order| ==> order[i].1 >= order[j].1)
  }

  /** The sum of the counts of the keys `ks` (each counted once when `ks`
      lists every key once). */
  function TotalOver(ks: seq<string>, m: map<string, int>): int
  {
    if |ks| == 0 then 0 else TotalOver(ks[..|ks| - 1], m) + Get(m, ks[|ks| - 1])
  }

  /** Changing the count of one key changes the total by the difference. */
  lemma {:induction false} TotalOverChange(ks: seq<string>, m1: map<string, int>, m2: map<string, int>, k: string)
    requires Distinct(ks)
    requires forall j :: j != k ==> Get(m1, j) == Get(m2, j)
    ensures TotalOver(ks, m2) == TotalOver(ks, m1) + (if k in ks then Get(m2, k) - Get(m1, k) else 0)
  {
    if |ks| > 0 {
      var init := ks[..|ks| - 1];
      assert Distinct(init);
      TotalOverChange(init, m1, m2, k);
      assert ks == init + [ks[|ks| - 1]];
      if ks[|ks| - 1] == k {
        assert k !in init;
      }
    }
  }

  /** The entries whose key is not in the case class `cl`, in order. */
  function Others(list: seq<Entry>, cl: string): (r: seq<Entry>)
    ensures |r| <= |list|
  {
    if |list| == 0 then []
    else
      var init, e := list[..|list| - 1], list[|list| - 1];
      Others(init, cl) + (if Lower(e.0) != cl then [e] else [])
  }

  lemma {:induction false} OthersMember(list: seq<Entry>, cl: string)
    ensures forall e :: e in Others(list, cl) <==> e in list && Lower(e.0) != cl
  {
    if |list| > 0 {
      var init, e := list[..|list| - 1], list[|list| - 1];
      OthersMember(init, cl);
      assert list == init + [e];
    }
  }

  /** The total count of the entries in the case class `cl`. */
  function ClassSum(list: seq<Entry>, cl: string): int
  {
    if |list| == 0 then 0
    else ClassSum(list[..|list| - 1], cl) + (if Lower(list[|list| - 1].0) == cl then list[|list| - 1].1 else 0)
  }

  /** The first key of the case class `cl`, if any. */
  function Rep(list: seq<Entry>, cl: string): Option<string>
  {
    if |list| == 0 then None
    else
      var r := Rep(list[..|list| - 1], cl);
      if r.Some? then r else if Lower(list[|list| - 1].0) == cl then Some(list[|list| - 1].0) else None
  }

  /** A list without a first key of a class has no key of it. */
  lemma {:induction false} RepNone(list: seq<Entry>, cl: string)
    requires Rep(list, cl).None?
    ensures forall i :: 0 <= i < |list| ==> Lower(list[i].0) != cl
  {
    if |list| > 0 {
      var init := list[..|list| - 1];
      RepNone(init, cl);
      assert forall i :: 0 <= i < |init| ==> init[i] == list[i];
    }
  }

  /** The index of the first key of a case class. */
  ghost function RepIndex(list: seq<Entry>, cl: string): (i: nat)
    requires Rep(list, cl).Some?
    ensures i < |list| && list[i].0 == Rep(list, cl).value && Lower(list[i].0) == cl
    ensures forall j :: 0 <= j < i ==> Lower(list[j].0) != cl
  {
    var init := list[..|list| - 1];
    if Rep(init, cl).Some? then
      var i := RepIndex(init, cl);
      assert list[i] == init[i];
      assert forall j :: 0 <= j < i ==> list[j] == init[j];
      i
    else
      RepNone(init, cl);
      assert forall j :: 0 <= j < |init| ==> list[j] == init[j];
      |list| - 1
  }

  /** The first key of a class is a key of the list, of that class. */
  lemma RepMeans(list: seq<Entry>, cl: string)
    ensures Rep(list, cl).Some? ==> Rep(list, cl).value in KeysOf(list) && Lower(Rep(list, cl).value) == cl
  {
    if Rep(list, cl).Some? {
      var i := RepIndex(list, cl);
      assert KeysOf(list)[i] == list[i].0;
    }
  }

  /** The inner loop of `unify_case_in_counter`, from the back of the list:
      every entry in the class of `cur` is deleted and its count added to
      `cur`; the entries of other classes remain, in order. */
  function Absorb(m: map<string, int>, cur: string, rest: seq<Entry>): (r: (map<string, int>, seq<Entry>))
    ensures |r.1| <= |rest|
    decreases |rest|
  {
    if |rest| == 0 then (m, [])
    else
      var init, e := rest[..|rest| - 1], rest[|rest| - 1];
      if Lower(e.0) == Lower(cur) then
        var m1 := m - {e.0};
        Absorb(m1[cur := Get(m1, cur) + e.1], cur, init)
      else
        var r := Absorb(m, cur, init);
        (r.0, r.1 + [e])
  }

  /** `unify_case_in_counter` on the list `counter.most_common()`: the first
      remaining entry absorbs its case class, then the rest is processed. */
  function Unify(m: map<string, int>, list: seq<Entry>): map<string, int>
    decreases |list|
  {
    if |list| == 0 then m
    else
      var r := Absorb(m, list[0].0, list[1..]);
      Unify(r.0, r.1)
  }

  /** `counter_threshold`: the entries whose count is above the threshold. */
  function AboveThreshold(m: map<string, int>, threshold: int): (r: map<string, int>)
    ensures forall k :: k in r <==> k in m && m[k] > threshold
    ensures forall k :: k in r ==> r[k] == m[k]
  {
    map k | k in m && m[k] > threshold :: m[k]
  }

  /** Thresholding twice is thresholding once. */
  lemma ThresholdIdempotent(m: map<string, int>, threshold: int)
    ensures AboveThreshold(AboveThreshold(m, threshold), threshold) == AboveThreshold(m, threshold)
  {
  }

  /** Thresholding at a lower value first changes nothing. */
  lemma ThresholdCompose(m: map<string, int>, low: int, high: int)
    requires low <= high
    ensures AboveThreshold(AboveThreshold(m, low), high) == AboveThreshold(m, high)
  {
  }

  // Facts about the case classes of an entry list.

  lemma {:induction false} ClassSumCons(e: Entry, rest: seq<Entry>, cl: string)
    ensures ClassSum([e] + rest, cl) == (if Lower(e.0) == cl then e.1 else 0) + ClassSum(rest, cl)
  {
    if |rest| > 0 {
      var list := [e] + rest;
      assert list[..|list| - 1] == [e] + rest[..|rest| - 1];
      ClassSumCons(e, rest[..|rest| - 1], cl);
    }
  }

  lemma {:induction false} RepCons(e: Entry, rest: seq<Entry>, cl: string)
    ensures Rep([e] + rest, cl) == if Lower(e.0) == cl then Some(e.0) else Rep(rest, cl)
  {
    if |rest| > 0 {
      var list := [e] + rest;
      assert list[..|list| - 1] == [e] + rest[..|rest| - 1];
      RepCons(e, rest[..|rest| - 1], cl);
    } else {
      assert [e] + rest == [e];
      assert [e][..0] == [];
    }
  }

  lemma {:induction false} ClassSumOthers(rest: seq<Entry>, cl0: string, cl: string)
    requires cl != cl0
    ensures ClassSum(Others(rest, cl0), cl) == ClassSum(rest, cl)
  {
    if |rest| > 0 {
      var init, e := rest[..|rest| - 1], rest[|rest| - 1];
      ClassSumOthers(init, cl0, cl);
      if Lower(e.0) != cl0 {
        var o := Others(init, cl0) + [e];
        assert o[..|o| - 1] == Others(init, cl0);
      } else {
        assert Others(rest, cl0) == Others(init, cl0) + [];
        assert Others(init, cl0) + [] == Others(init, cl0);
      }
    }
  }

  lemma {:induction false} RepOthers(rest: seq<Entry>, cl0: string, cl: string)
    requires cl != cl0
    ensures Rep(Others(rest, cl0), cl) == Rep(rest, cl)
  {
    if |rest| > 0 {
      var init, e := rest[..|rest| - 1], rest[|rest| - 1];
      RepOthers(init, cl0, cl);
      if Lower(e.0) != cl0 {
        var o := Others(init, cl0) + [e];
        assert o[..|o| - 1] == Others(init, cl0);
      } else {
        assert Others(rest, cl0) == Others(init, cl0) + [];
        assert Others(init, cl0) + [] == Others(init, cl0);
      }
    }
  }

  lemma KeysOfOthers(rest: seq<Entry>, cl: string, k: string)
    ensures k in KeysOf(Others(rest, cl)) <==> k in KeysOf(rest) && Lower(k) != cl
  {
    var o := Others(rest, cl);
    OthersMember(rest, cl);
    if k in KeysOf(o) {
      var i :| 0 <= i < |o| && KeysOf(o)[i] == k;
      assert o[i] in o;
      var j :| 0 <= j < |rest| && rest[j] == o[i];
      assert KeysOf(rest)[j] == k;
    }
    if k in KeysOf(rest) && Lower(k) != cl {
      var j :| 0 <= j < |rest| && KeysOf(rest)[j] == k;
      assert rest[j] in rest;
      var i :| 0 <= i < |o| && o[i] == rest[j];
      assert KeysOf(o)[i] == k;
    }
  }

  lemma {:induction false} OthersDistinct(rest: seq<Entry>, cl: string)
    requires Distinct(KeysOf(rest))
    ensures Distinct(KeysOf(Others(rest, cl)))
  {
    if |rest| > 0 {
      var init, e := rest[..|rest| - 1], rest[|rest| - 1];
      assert forall i :: 0 <= i < |init| ==> KeysOf(init)[i] == KeysOf(rest)[i];
      assert Distinct(KeysOf(init));
      OthersDistinct(init, cl);
      if Lower(e.0) != cl {
        var o := Others(init, cl);
        KeysOfOthers(init, cl, e.0);
        assert e.0 !in KeysOf(init);
        assert forall i :: 0 <= i < |o| ==> KeysOf(o + [e])[i] == KeysOf(o)[i];
      } else {
        assert Others(rest, cl) == Others(init, cl) + [];
      }
    }
  }

  /** The entries that no inner loop has absorbed yet are exactly counted. */
  predicate Current(m: map<string, int>, list: seq<Entry>)
  {
    forall i :: 0 <= i < |list| ==> list[i].0 in m && m[list[i].0] == list[i].1
  }

  /** What the inner loop does to the counter and to the remaining list. */
  lemma {:induction false} AbsorbMeans(m: map<string, int>, cur: string, rest: seq<Entry>)
    requires cur in m && cur !in KeysOf(rest)
    ensures var r := Absorb(m, cur, rest);
      && r.1 == Others(rest, Lower(cur))
      && (forall k :: k in r.0 <==> k == cur || (k in m && !(k in KeysOf(rest) && Lower(k) == Lower(cur))))
      && r.0[cur] == m[cur] + ClassSum(rest, Lower(cur))
      && (forall k :: k in r.0 && k != cur ==> r.0[k] == m[k])
    decreases |rest|
  {
    if |rest| > 0 {
      var init, e := rest[..|rest| - 1], rest[|rest| - 1];
      assert KeysOf(rest) == KeysOf(init) + [e.0];
      if Lower(e.0) == Lower(cur) {
        var m1 := m - {e.0};
        var m2 := m1[cur := Get(m1, cur) + e.1];
        AbsorbMeans(m2, cur, init);
        assert Others(rest, Lower(cur)) == Others(init, Lower(cur)) + [];
      } else {
        AbsorbMeans(m, cur, init);
      }
    }
  }

  /** The tail of a distinct, exactly counted list is distinct, exactly
      counted and does not hold the head's key. */
  lemma TailFacts(m: map<string, int>, c: Entry, rest: seq<Entry>)
    requires Distinct(KeysOf([c] + rest)) && Current(m, [c] + rest)
    ensures c.0 in m && c.0 !in KeysOf(rest)
    ensures Distinct(KeysOf(rest)) && Current(m, rest)
  {
    var list := [c] + rest;
    assert list[0] == c;
    assert forall i :: 0 <= i < |rest| ==> list[i + 1] == rest[i];
    assert c.0 !in KeysOf(rest) by {
      forall j | 0 <= j < |rest| ensures KeysOf(rest)[j] != c.0 {
        assert KeysOf(list)[0] != KeysOf(list)[j + 1];
      }
    }
    assert Distinct(KeysOf(rest)) by {
      forall i, j | 0 <= i < j < |rest| ensures KeysOf(rest)[i] != KeysOf(rest)[j] {
        assert KeysOf(list)[i + 1] != KeysOf(list)[j + 1];
      }
    }
  }

  /** The entries the inner loop leaves are still exactly counted. */
  lemma AbsorbCurrent(m: map<string, int>, cur: string, rest: seq<Entry>)
    requires cur in m && cur !in KeysOf(rest) && Current(m, rest)
    ensures Current(Absorb(m, cur, rest).0, Absorb(m, cur, rest).1)
  {
    AbsorbMeans(m, cur, rest);
    OthersMember(rest, Lower(cur));
    var r := Absorb(m, cur, rest);
    forall i | 0 <= i < |r.1| ensures r.1[i].0 in r.0 && r.0[r.1[i].0] == r.1[i].1 {
      var e := r.1[i];
      assert e in r.1;
      var j :| 0 <= j < |rest| && rest[j] == e;
      assert KeysOf(rest)[j] == e.0;
    }
  }

  /** After the inner loop the remaining list is still distinct and exactly
      counted. */
  lemma AbsorbKeepsEntries(m: map<string, int>, c: Entry, rest: seq<Entry>)
    requires Distinct(KeysOf([c] + rest)) && Current(m, [c] + rest)
    ensures c.0 in m && c.0 !in KeysOf(rest)
    ensures Distinct(KeysOf(Absorb(m, c.0, rest).1))
    ensures Current(Absorb(m, c.0, rest).0, Absorb(m, c.0, rest).1)
  {
    TailFacts(m, c, rest);
    OthersDistinct(rest, Lower(c.0));
    AbsorbMeans(m, c.0, rest);
    AbsorbCurrent(m, c.0, rest);
  }

  /** The keys the outer loop has handled before reaching `list`: none is
      in a case class of `list`, and no two are equal ignoring case. */
  ghost predicate Settled(m: map<string, int>, list: seq<Entry>)
  {
    && (forall k :: k in m && k !in KeysOf(list) ==> forall i :: 0 <= i < |list| ==> Lower(list[i].0) != Lower(k))
    && (forall a, b :: a in m && b in m && a !in KeysOf(list) && b !in KeysOf(list) && Lower(a) == Lower(b) ==> a == b)
  }

  /** No two keys are equal ignoring case. */
  ghost predicate CaseDistinct(r: map<string, int>)
  {
    forall a, b :: a in r && b in r && Lower(a) == Lower(b) ==> a == b
  }

  /** The result `r` of the outer loop from state (`m`, `list`): the keys
      handled before keep their counts, and every case class of `list`
      collapses onto its first key with the class total. */
  ghost predicate Shaped(m: map<string, int>, list: seq<Entry>, r: map<string, int>)
  {
    && (forall k :: k in r <==> (k in m && k !in KeysOf(list)) || (k in KeysOf(list) && Rep(list, Lower(k)) == Some(k)))
    && (forall k :: k in m && k !in KeysOf(list) ==> k in r && r[k] == m[k])
    && (forall k :: k in KeysOf(list) && Rep(list, Lower(k)) == Some(k) ==> k in r && r[k] == ClassSum(list, Lower(k)))
    && CaseDistinct(r)
  }

  lemma {:induction false} UnifyShape(m: map<string, int>, list: seq<Entry>)
    requires Distinct(KeysOf(list)) && Current(m, list) && Settled(m, list)
    ensures Shaped(m, list, Unify(m, list))
    decreases |list|
  {
    if |list| > 0 {
      var c, rest := list[0], list[1..];
      assert list == [c] + rest;
      AbsorbKeepsEntries(m, c, rest);
      var a := Absorb(m, c.0, rest);
      StepSettled(m, c, rest);
      UnifyShape(a.0, a.1);
      StepShapeKeys(m, c, rest, Unify(a.0, a.1));
      StepShapeSums(m, c, rest, Unify(a.0, a.1));
    } else {
      assert forall k :: k !in KeysOf(list);
    }
  }

  /** Facts about one pass of the outer loop, from state (`m`, `[c] + rest`)
      to (`a.0`, `a.1`). */
  lemma StepFacts(m: map<string, int>, c: Entry, rest: seq<Entry>)
    requires Distinct(KeysOf([c] + rest)) && Current(m, [c] + rest)
    ensures c.0 in m && c.0 !in KeysOf(rest)
    ensures KeysOf([c] + rest) == [c.0] + KeysOf(rest)
    ensures var a := Absorb(m, c.0, rest);
      && a.1 == Others(rest, Lower(c.0))
      && (forall k :: k in KeysOf(a.1) <==> k in KeysOf(rest) && Lower(k) != Lower(c.0))
      && (forall k :: k in a.0 <==> k == c.0 || (k in m && !(k in KeysOf(rest) && Lower(k) == Lower(c.0))))
      && a.0[c.0] == m[c.0] + ClassSum(rest, Lower(c.0))
      && (forall k :: k in a.0 && k != c.0 ==> a.0[k] == m[k])
  {
    AbsorbKeepsEntries(m, c, rest);
    AbsorbMeans(m, c.0, rest);
    forall k | true
      ensures k in KeysOf(Others(rest, Lower(c.0))) <==> k in KeysOf(rest) && Lower(k) != Lower(c.0)
    {
      KeysOfOthers(rest, Lower(c.0), k);
    }
  }

  lemma StepSettled(m: map<string, int>, c: Entry, rest: seq<Entry>)
    requires Distinct(KeysOf([c] + rest)) && Current(m, [c] + rest) && Settled(m, [c] + rest)
    ensures Settled(Absorb(m, c.0, rest).0, Absorb(m, c.0, rest).1)
  {
    StepSettledApart(m, c, rest);
    StepSettledDistinct(m, c, rest);
  }

  /** After one pass no handled key shares a case class with a key left. */
  lemma StepSettledApart(m: map<string, int>, c: Entry, rest: seq<Entry>)
    requires Distinct(KeysOf([c] + rest)) && Current(m, [c] + rest) && Settled(m, [c] + rest)
    ensures var a := Absorb(m, c.0, rest);
      forall k :: k in a.0 && k !in KeysOf(a.1) ==> forall i :: 0 <= i < |a.1| ==> Lower(a.1[i].0) != Lower(k)
  {
    var list := [c] + rest;
    StepFacts(m, c, rest);
    var a := Absorb(m, c.0, rest);
    assert list[0] == c;
    forall k | k in a.0 && k !in KeysOf(a.1)
      ensures forall i :: 0 <= i < |a.1| ==> Lower(a.1[i].0) != Lower(k)
    {
      forall i | 0 <= i < |a.1| ensures Lower(a.1[i].0) != Lower(k) {
        assert KeysOf(a.1)[i] in KeysOf(a.1);
        if k != c.0 {
          assert k !in KeysOf(list);
          assert a.1[i].0 in KeysOf(rest);
          var j :| 0 <= j < |rest| && KeysOf(rest)[j] == a.1[i].0;
          assert list[j + 1] == rest[j];
        }
      }
    }
  }

  /** After one pass no two handled keys are equal ignoring case. */
  lemma StepSettledDistinct(m: map<string, int>, c: Entry, rest: seq<Entry>)
    requires Distinct(KeysOf([c] + rest)) && Current(m, [c] + rest) && Settled(m, [c] + rest)
    ensures var a := Absorb(m, c.0, rest);
      forall x, y :: x in a.0 && y in a.0 && x !in KeysOf(a.1) && y !in KeysOf(a.1) && Lower(x) == Lower(y) ==> x == y
  {
    var list := [c] + rest;
    StepFacts(m, c, rest);
    var a := Absorb(m, c.0, rest);
    assert list[0] == c;
    forall x, y | x in a.0 && y in a.0 && x !in KeysOf(a.1) && y !in KeysOf(a.1) && Lower(x) == Lower(y)
      ensures x == y
    {
      if x != c.0 {
        assert x in m && x !in KeysOf(rest) && x !in KeysOf(list);
      }
      if y != c.0 {
        assert y in m && y !in KeysOf(rest) && y !in KeysOf(list);
      }
    }
  }

  lemma StepShapeKeys(m: map<string, int>, c: Entry, rest: seq<Entry>, r: map<string, int>)
    requires Distinct(KeysOf([c] + rest)) && Current(m, [c] + rest) && Settled(m, [c] + rest)
    requires Shaped(Absorb(m, c.0, rest).0, Absorb(m, c.0, rest).1, r)
    ensures forall k :: k in r <==> (k in m && k !in KeysOf([c] + rest)) || (k in KeysOf([c] + rest) && Rep([c] + rest, Lower(k)) == Some(k))
    ensures forall k :: k in m && k !in KeysOf([c] + rest) ==> k in r && r[k] == m[k]
    ensures CaseDistinct(r)
  {
    var list := [c] + rest;
    var cl := Lower(c.0);
    StepFacts(m, c, rest);
    assert list[0] == c;
    assert KeysOf(list)[0] == c.0;
    forall k | true
      ensures k in r <==> (k in m && k !in KeysOf(list)) || (k in KeysOf(list) && Rep(list, Lower(k)) == Some(k))
    {
      RepCons(c, rest, Lower(k));
      if k == c.0 {
        assert k in KeysOf(list);
      } else if Lower(k) != cl {
        RepOthers(rest, cl, Lower(k));
      }
    }
    forall k | k in m && k !in KeysOf(list)
      ensures k in r && r[k] == m[k]
    {
      assert Lower(list[0].0) != Lower(k);
    }
  }

  lemma StepShapeSums(m: map<string, int>, c: Entry, rest: seq<Entry>, r: map<string, int>)
    requires Distinct(KeysOf([c] + rest)) && Current(m, [c] + rest) && Settled(m, [c] + rest)
    requires Shaped(Absorb(m, c.0, rest).0, Absorb(m, c.0, rest).1, r)
    ensures forall k :: k in KeysOf([c] + rest) && Rep([c] + rest, Lower(k)) == Some(k) ==>
      k in r && r[k] == ClassSum([c] + rest, Lower(k))
  {
    var list := [c] + rest;
    var cl := Lower(c.0);
    StepFacts(m, c, rest);
    var a := Absorb(m, c.0, rest);
    assert list[0] == c;
    forall k | k in KeysOf(list) && Rep(list, Lower(k)) == Some(k)
      ensures k in r && r[k] == ClassSum(list, Lower(k))
    {
      RepCons(c, rest, Lower(k));
      ClassSumCons(c, rest, Lower(k));
      if Lower(k) == cl {
        assert k == c.0;
        assert c.0 !in KeysOf(a.1);
      } else {
        RepOthers(rest, cl, Lower(k));
        ClassSumOthers(rest, cl, Lower(k));
        assert k in KeysOf(rest);
        assert k in KeysOf(a.1);
      }
    }
  }

  /** `unify_case_in_counter`: every key survives exactly when it comes first
      in `most_common()` order among the keys equal to it ignoring case; it
      then holds the total of its case class; no two keys are left that are
      equal ignoring case. */
  lemma UnifyCaseCollapses(m: map<string, int>, order: seq<Entry>)
    requires MostCommon(m, order)
    ensures var r := Unify(m, order);
      && (forall k :: k in r <==> k in m && Rep(order, Lower(k)) == Some(k))
      && (forall k :: k in r ==> r[k] == ClassSum(order, Lower(k)))
      && (forall a, b :: a in r && b in r && Lower(a) == Lower(b) ==> a == b)
  {
    UnifyShape(m, order);
  }

  /** The key a case class keeps is its most frequent one. */
  lemma {:induction false} RepIsMostCommon(m: map<string, int>, order: seq<Entry>, cl: string, k: string)
    requires MostCommon(m, order) && Rep(order, cl) == Some(k)
    ensures k in m && forall i :: 0 <= i < |order| && Lower(order[i].0) == cl ==> m[k] >= order[i].1
  {
    var i0 := RepIndex(order, cl);
    forall i | 0 <= i < |order| && Lower(order[i].0) == cl ensures m[k] >= order[i].1 {
      assert i0 <= i;
    }
  }

  /** A key with no other key equal to it ignoring case keeps its count. */
  lemma NoVariantUntouched(m: map<string, int>, order: seq<Entry>, k: string)
    requires MostCommon(m, order) && k in m
    requires forall j :: j in m && Lower(j) == Lower(k) ==> j == k
    ensures k in Unify(m, order) && Unify(m, order)[k] == m[k]
  {
    UnifyCaseCollapses(m, order);
    var i :| 0 <= i < |order| && KeysOf(order)[i] == k;
    SingleClass(order, i);
  }

  lemma {:induction false} SingleClass(list: seq<Entry>, i: nat)
    requires i < |list|
    requires forall j :: 0 <= j < |list| && j != i ==> Lower(list[j].0) != Lower(list[i].0)
    ensures Rep(list, Lower(list[i].0)) == Some(list[i].0)
    ensures ClassSum(list, Lower(list[i].0)) == list[i].1
  {
    var cl := Lower(list[i].0);
    var init := list[..|list| - 1];
    if i < |list| - 1 {
      SingleClass(init, i);
    } else {
      assert forall j :: 0 <= j < |init| ==> init[j] == list[j];
      RepOfNone(init, cl);
      ClassSumNone(init, cl);
    }
  }

  lemma {:induction false} RepOfNone(list: seq<Entry>, cl: string)
    requires forall j :: 0 <= j < |list| ==> Lower(list[j].0) != cl
    ensures Rep(list, cl).None?
  {
    if |list| > 0 {
      RepOfNone(list[..|list| - 1], cl);
    }
  }

  lemma {:induction false} ClassSumNone(list: seq<Entry>, cl: string)
    requires forall j :: 0 <= j < |list| ==> Lower(list[j].0) != cl
    ensures ClassSum(list, cl) == 0
  {
    if |list| > 0 {
      ClassSumNone(list[..|list| - 1], cl);
    }
  }

  /** The inner loop keeps the total: each absorbed count moves to `cur`. */
  lemma {:induction false} AbsorbTotal(m: map<string, int>, cur: string, rest: seq<Entry>, ks: seq<string>)
    requires Distinct(ks) && cur in ks && cur !in KeysOf(rest)
    requires Current(m, rest) && Distinct(KeysOf(rest))
    requires forall i :: 0 <= i < |rest| ==> rest[i].0 in ks
    ensures TotalOver(ks, Absorb(m, cur, rest).0) == TotalOver(ks, m)
    decreases |rest|
  {
    if |rest| > 0 {
      var init, e := rest[..|rest| - 1], rest[|rest| - 1];
      assert forall i :: 0 <= i < |init| ==> KeysOf(init)[i] == KeysOf(rest)[i];
      assert Distinct(KeysOf(init));
      assert KeysOf(rest)[|rest| - 1] == e.0;
      assert e.0 != cur;
      if Lower(e.0) == Lower(cur) {
        var m1 := m - {e.0};
        var m2 := m1[cur := Get(m1, cur) + e.1];
        TotalOverChange(ks, m, m1, e.0);
        TotalOverChange(ks, m1, m2, cur);
        forall i | 0 <= i < |init| ensures init[i].0 in m2 && m2[init[i].0] == init[i].1 {
          assert KeysOf(rest)[i] != KeysOf(rest)[|rest| - 1];
          assert KeysOf(rest)[i] != cur;
        }
        AbsorbTotal(m2, cur, init, ks);
      } else {
        AbsorbTotal(m, cur, init, ks);
      }
    }
  }

  lemma {:induction false} UnifyTotal(m: map<string, int>, list: seq<Entry>, ks: seq<string>)
    requires Distinct(ks) && Distinct(KeysOf(list)) && Current(m, list)
    requires forall i :: 0 <= i < |list| ==> list[i].0 in ks
    ensures TotalOver(ks, Unify(m, list)) == TotalOver(ks, m)
    decreases |list|
  {
    if |list| > 0 {
      var c, rest := list[0], list[1..];
      assert list == [c] + rest;
      AbsorbKeepsEntries(m, c, rest);
      AbsorbMeans(m, c.0, rest);
      var a := Absorb(m, c.0, rest);
      assert forall i :: 0 <= i < |rest| ==> rest[i] == list[i + 1];
      AbsorbTotal(m, c.0, rest, ks);
      OthersMember(rest, Lower(c.0));
      forall i | 0 <= i < |a.1| ensures a.1[i].0 in ks {
        assert a.1[i] in a.1;
      }
      UnifyTotal(a.0, a.1, ks);
    }
  }

  /** `unify_case_in_counter` keeps the total of all counts. */
  lemma UnifyCaseTotal(m: map<string, int>, order: seq<Entry>)
    requires MostCommon(m, order)
    ensures TotalOver(KeysOf(order), Unify(m, order)) == TotalOver(KeysOf(order), m)
  {
    UnifyTotal(m, order, KeysOf(order));
  }

  /** A `collections.Counter` from words to counts, edited in place. */
  class Counter {
    var counts: map<string, int>

    constructor (counts: map<string, int>)
      ensures this.counts == counts
    {
      this.counts := counts;
    }

    /** `unify_case_in_counter`; `order` is `counter.most_common()`. */
    method UnifyCase(order: seq<Entry>)
      requires MostCommon(counts, order)
      modifies this
      ensures counts == Unify(old(counts), order)
    {
      var list := order;
      while |list| > 0
        invariant Unify(counts, list) == Unify(old(counts), order)
        decreases |list|
      {
        var current := list[0].0;
        list := AbsorbCase(current, list[1..]);
      }
    }

    /** The inner loop of `unify_case_in_counter`: from the back of the
        list, every word equal to `current` ignoring case is deleted from
        the counter and from the list, its count added to `current`. */
    method AbsorbCase(current: string, rest: seq<Entry>) returns (list: seq<Entry>)
      modifies this
      ensures (counts, list) == Absorb(old(counts), current, rest)
    {
      list := rest;
      var idx := |list| - 1;
      assert list[..idx + 1] == list && list[idx + 1..] == [];
      assert Absorb(counts, current, rest).1 + [] == Absorb(counts, current, rest).1;
      while idx >= 0
        invariant -1 <= idx < |list|
        invariant Absorb(old(counts), current, rest) == AbsorbedSoFar(counts, current, list, idx)
        decreases idx
      {
        AbsorbStep(counts, current, list, idx);
        if Lower(list[idx].0) == Lower(current) {
          counts := counts - {list[idx].0};
          counts := counts[current := Get(counts, current) + list[idx].1];
          list := list[..idx] + list[idx + 1..];
        }
        idx := idx - 1;
      }
      assert list[..0] == [];
      assert list[0..] == list;
      assert [] + list == list;
    }

    /** `counter_threshold`; `order` is `counter.most_common()`. */
    method Threshold(order: seq<Entry>, threshold: int)
      requires MostCommon(counts, order)
      modifies this
      ensures counts == AboveThreshold(old(counts), threshold)
    {
      var i := 0;
      while i < |order|
        invariant 0 <= i <= |order|
        invariant forall k :: k in counts ==> k in old(counts) && counts[k] == old(counts)[k]
        invariant forall k :: k in old(counts) && old(counts)[k] > threshold ==> k in counts
        invariant forall j :: 0 <= j < i && order[j].1 <= threshold ==> order[j].0 !in counts
      {
        if order[i].1 <= threshold {
          counts := counts - {order[i].0};
        }
        i := i + 1;
      }
      forall k | k in counts ensures old(counts)[k] > threshold {
        var j :| 0 <= j < |order| && KeysOf(order)[j] == k;
      }
    }
  }

  /** The inner loop's state read as a call of `Absorb`: the unvisited front
      of the list still to absorb, its visited back kept as it is. */
  function AbsorbedSoFar(m: map<string, int>, cur: string, list: seq<Entry>, idx: int): (map<string, int>, seq<Entry>)
    requires -1 <= idx < |list|
  {
    var a := Absorb(m, cur, list[..idx + 1]);
    (a.0, a.1 + list[idx + 1..])
  }

  /** One pass of the inner loop keeps `AbsorbedSoFar`. */
  lemma AbsorbStep(m: map<string, int>, cur: string, list: seq<Entry>, idx: int)
    requires 0 <= idx < |list|
    ensures Lower(list[idx].0) == Lower(cur) ==>
      var m1 := m - {list[idx].0};
      AbsorbedSoFar(m, cur, list, idx) ==
        AbsorbedSoFar(m1[cur := Get(m1, cur) + list[idx].1], cur, list[..idx] + list[idx + 1..], idx - 1)
    ensures Lower(list[idx].0) != Lower(cur) ==>
      AbsorbedSoFar(m, cur, list, idx) == AbsorbedSoFar(m, cur, list, idx - 1)
  {
    var front := list[..idx + 1];
    assert front[..idx] == list[..idx];
    assert front[idx] == list[idx];
    if Lower(list[idx].0) == Lower(cur) {
      var list' := list[..idx] + list[idx + 1..];
      assert list'[..idx] == list[..idx];
      assert list'[idx..] == list[idx + 1..];
    } else {
      var b := Absorb(m, cur, list[..idx]);
      assert Absorb(m, cur, front) == (b.0, b.1 + [list[idx]]);
      assert list[idx..] == [list[idx]] + list[idx + 1..];
      assert (b.1 + [list[idx]]) + list[idx + 1..] == b.1 + list[idx..];
    }
  }

}
