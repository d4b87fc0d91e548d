/** The Wikipedia side of esqabe/wiki_fingerprint_comparer.py: the list of
    Wikipedia addresses fed from a search trace, the check that a visited
    host is a language edition of Wikipedia, and the cut of the captured
    packets down to the first Wikipedia page load after a visit. */
module WikiComparer {
  import opened Common
  import opened Utils
  import Search

  /** The time (ms) a page is given to load before the next click. */
  const TIME_LOAD_UNTIL_CLICK := 4000

  /** `is_from_wiki` of the comparer is the test of `Utils.IsFromWiki`: one
      of the two known names occurs in the host name. */
  lemma IsFromWikiNames(domain: string)
    ensures IsFromWiki(domain) <==> Contains(domain, "wikipedia.org") || Contains(domain, "wikimedia.org")
  {
    assert KNOWN_WIKI_NAMES[0] == "wikipedia.org" && KNOWN_WIKI_NAMES[1] == "wikimedia.org";
    if IsFromWiki(domain) {
      var k :| 0 <= k < |KNOWN_WIKI_NAMES| && Contains(domain, KNOWN_WIKI_NAMES[k]);
      assert k == 0 || k == 1;
    }
  }

  // ---------------------------------------------------------------------
  // Wikipedia addresses

  /** The addresses of the pairs whose host is a Wikipedia host, in order,
      repeats included. */
  function WikiAddresses(pairs: seq<(string, string)>): (r: seq<string>)
    ensures |r| <= |pairs|
  {
    if |pairs| == 0 then []
    else
      var p := pairs[|pairs| - 1];
      WikiAddresses(pairs[..|pairs| - 1]) + (if IsFromWiki(p.1) then [p.0] else [])
  }

  /** An address is fed exactly when some pair with a Wikipedia host names it. */
  lemma {:induction false} WikiAddressesMembers(pairs: seq<(string, string)>, a: string)
    ensures a in WikiAddresses(pairs) <==> exists i :: 0 <= i < |pairs| && pairs[i].0 == a && IsFromWiki(pairs[i].1)
  {
    if |pairs| > 0 {
      var init := pairs[..|pairs| - 1];
      WikiAddressesMembers(init, a);
      assert forall i :: 0 <= i < |init| ==> init[i] == pairs[i];
    }
  }

  /** Feeding the pairs in two parts feeds them all. */
  lemma {:induction false} WikiAddressesAppend(a: seq<(string, string)>, b: seq<(string, string)>)
    ensures WikiAddresses(a + b) == WikiAddresses(a) + WikiAddresses(b)
    decreases |b|
  {
    if |b| == 0 {
      assert a + b == a;
    } else {
      var init := b[..|b| - 1];
      WikiAddressesAppend(a, init);
      assert (a + b)[..|a + b| - 1] == a + init;
      assert (a + b)[|a + b| - 1] == b[|b| - 1];
    }
  }

  // ---------------------------------------------------------------------
  // Language editions

  datatype DomainError =
    | MissingLabel        // the host has no second label (an IndexError)
    | NotWikipedia(domain: string)   // the second label is not "wikipedia" (a ValueError)

  /** `set_wiki_domain`: the language the encyclopedia client is switched
      to, the host's first label, when the second label is "wikipedia". */
  function SetWikiDomain(domain: string): (r: Result<string, DomainError>)
    ensures r.Ok? ==> '.' !in r.value
  {
    var labels := Split(domain, '.');
    if |labels| < 2 then Err(MissingLabel)
    else if labels[1] != "wikipedia" then Err(NotWikipedia(domain))
    else Ok(labels[0])
  }

  /** A host of the form `lang.wikipedia` or `lang.wikipedia.rest` selects
      `lang`. */
  lemma SetWikiDomainAccepts(lang: string, rest: string)
    requires '.' !in lang
    requires rest == [] || rest[0] == '.'
    ensures SetWikiDomain(lang + "." + "wikipedia" + rest) == Ok(lang)
  {
    var domain := lang + "." + "wikipedia" + rest;
    if rest == [] {
      var parts := [lang, "wikipedia"];
      assert Join(parts, ".") == domain;
      SplitJoin(parts, '.');
    } else {
      var tail := Split(rest[1..], '.');
      JoinSplit(rest[1..], '.');
      var parts := [lang, "wikipedia"] + tail;
      assert parts[1..] == ["wikipedia"] + tail && parts[2..] == tail;
      assert Join(parts[1..], ".") == "wikipedia" + "." + Join(tail, ".");
      assert rest == "." + rest[1..];
      assert Join(parts, ".") == domain;
      forall k | 0 <= k < |parts| ensures '.' !in parts[k] {
        if k >= 2 {
          assert parts[k] == tail[k - 2];
        }
      }
      SplitJoin(parts, '.');
    }
  }

  /** Whatever `set_wiki_domain` accepts has that form. */
  lemma SetWikiDomainShape(domain: string)
    requires SetWikiDomain(domain).Ok?
    ensures var lang := SetWikiDomain(domain).value;
      exists rest :: (rest == [] || rest[0] == '.') && domain == lang + "." + "wikipedia" + rest
  {
    var parts := Split(domain, '.');
    JoinSplit(domain, '.');
    var lang := parts[0];
    assert domain == lang + "." + Join(parts[1..], ".");
    if |parts| == 2 {
      assert Join(parts[1..], ".") == "wikipedia";
      assert domain == lang + "." + "wikipedia" + "";
    } else {
      var rest := "." + Join(parts[2..], ".");
      assert parts[1..][1..] == parts[2..];
      assert Join(parts[1..], ".") == "wikipedia" + rest;
      assert domain == lang + "." + "wikipedia" + rest;
    }
  }

  /** A host name without a dot has no second label. */
  lemma SetWikiDomainMissing(domain: string)
    ensures SetWikiDomain(domain) == Err(MissingLabel) <==> '.' !in domain
  {
    if '.' !in domain {
      SplitNoSep(domain, '.');
    } else {
      JoinSplit(domain, '.');
    }
  }

  // ---------------------------------------------------------------------
  // The first page load after a visit

  /** The packets at or after `ts` that are sent to or received from a
      Wikipedia address. */
  function PossibleWiki(packets: seq<Search.PacketRecord>, wikiIps: seq<string>, ts: int): (r: seq<Search.PacketRecord>)
    ensures |r| <= |packets|
  {
    if |packets| == 0 then []
    else
      var p := packets[|packets| - 1];
      PossibleWiki(packets[..|packets| - 1], wikiIps, ts) +
        (if p.time >= ts && (p.dst in wikiIps || p.src in wikiIps) then [p] else [])
  }

  /** The packet at `i` is the last one or the next comes more than four
      seconds later (the last packet's successor counts as infinitely late). */
  predicate GapAfter(poss: seq<Search.PacketRecord>, i: nat)
    requires i < |poss|
  {
    i + 1 == |poss| || poss[i].time + TIME_LOAD_UNTIL_CLICK < poss[i + 1].time
  }

  /** The first packet from `i` on that is followed by a gap. */
  function FirstGap(poss: seq<Search.PacketRecord>, i: nat): (r: nat)
    requires i < |poss|
    ensures i <= r < |poss| && GapAfter(poss, r)
    ensures forall j :: i <= j < r ==> !GapAfter(poss, j)
    decreases |poss| - i
  {
    if GapAfter(poss, i) then i else FirstGap(poss, i + 1)
  }

  /** The packets no later than `t`, in order. */
  function NoLaterThan(rows: seq<Search.PacketRecord>, t: int): (r: seq<Search.PacketRecord>)
    ensures |r| <= |rows|
  {
    if |rows| == 0 then []
    else
      var p := rows[|rows| - 1];
      NoLaterThan(rows[..|rows| - 1], t) + (if p.time <= t then [p] else [])
  }

  datatype FilterError = NoWikiPackets   // `iloc[0]` of an empty selection (an IndexError)

  /** `_filter_interesting`: the candidate packets up to the time of the
      first one followed by a gap of more than four seconds. */
  function FilterInteresting(packets: seq<Search.PacketRecord>, wikiIps: seq<string>, ts: int): (r: Result<seq<Search.PacketRecord>, FilterError>)
    ensures r.Err? <==> |PossibleWiki(packets, wikiIps, ts)| == 0
  {
    var poss := PossibleWiki(packets, wikiIps, ts);
    if |poss| == 0 then Err(NoWikiPackets)
    else Ok(NoLaterThan(poss, poss[FirstGap(poss, 0)].time))
  }

  lemma {:induction false} PossibleWikiMembers(packets: seq<Search.PacketRecord>, wikiIps: seq<string>, ts: int)
    ensures forall p :: p in PossibleWiki(packets, wikiIps, ts) <==>
      p in packets && p.time >= ts && (p.dst in wikiIps || p.src in wikiIps)
  {
    if |packets| > 0 {
      var init := packets[..|packets| - 1];
      PossibleWikiMembers(init, wikiIps, ts);
      assert packets == init + [packets[|packets| - 1]];
    }
  }

  lemma {:induction false} NoLaterThanMembers(rows: seq<Search.PacketRecord>, t: int)
    ensures forall p :: p in NoLaterThan(rows, t) <==> p in rows && p.time <= t
  {
    if |rows| > 0 {
      var init := rows[..|rows| - 1];
      NoLaterThanMembers(init, t);
      assert rows == init + [rows[|rows| - 1]];
    }
  }

  /** Every packet kept is at or after `ts`, involves a Wikipedia address
      and is no later than the cut. */
  lemma FilterInterestingSound(packets: seq<Search.PacketRecord>, wikiIps: seq<string>, ts: int)
    requires FilterInteresting(packets, wikiIps, ts).Ok?
    ensures var poss := PossibleWiki(packets, wikiIps, ts);
      forall p :: p in FilterInteresting(packets, wikiIps, ts).value <==>
        p in packets && p.time >= ts && (p.dst in wikiIps || p.src in wikiIps) && p.time <= poss[FirstGap(poss, 0)].time
  {
    var poss := PossibleWiki(packets, wikiIps, ts);
    PossibleWikiMembers(packets, wikiIps, ts);
    NoLaterThanMembers(poss, poss[FirstGap(poss, 0)].time);
  }

  predicate SortedByTime(rows: seq<Search.PacketRecord>)
  {
    forall i, j :: 0 <= i < j < |rows| ==> rows[i].time <= rows[j].time
  }

  lemma {:induction false} PossibleWikiSorted(packets: seq<Search.PacketRecord>, wikiIps: seq<string>, ts: int)
    requires SortedByTime(packets)
    ensures SortedByTime(PossibleWiki(packets, wikiIps, ts))
  {
    if |packets| > 0 {
      var init, p := packets[..|packets| - 1], packets[|packets| - 1];
      assert SortedByTime(init);
      PossibleWikiSorted(init, wikiIps, ts);
      var prev := PossibleWiki(init, wikiIps, ts);
      PossibleWikiMembers(init, wikiIps, ts);
      forall i | 0 <= i < |prev| ensures prev[i].time <= p.time {
        assert prev[i] in init;
      }
    }
  }

  /** In a time-ordered sequence, the packets no later than the time of the
      packet at `k`, when the next one is later, are the prefix up to `k`. */
  lemma {:induction false} NoLaterThanPrefix(rows: seq<Search.PacketRecord>, k: nat)
    requires SortedByTime(rows) && k < |rows|
    requires k + 1 == |rows| || rows[k].time < rows[k + 1].time
    ensures NoLaterThan(rows, rows[k].time) == rows[..k + 1]
    decreases |rows|
  {
    var init := rows[..|rows| - 1];
    if k + 1 == |rows| {
      NoLaterThanAll(init, rows[k].time);
      assert rows[..k + 1] == init + [rows[k]];
    } else {
      assert rows[k].time < rows[|rows| - 1].time;
      assert SortedByTime(init) && init[k] == rows[k];
      NoLaterThanPrefix(init, k);
      assert init[..k + 1] == rows[..k + 1];
    }
  }

  lemma {:induction false} NoLaterThanAll(rows: seq<Search.PacketRecord>, t: int)
    requires forall i :: 0 <= i < |rows| ==> rows[i].time <= t
    ensures NoLaterThan(rows, t) == rows
  {
    if |rows| > 0 {
      var init := rows[..|rows| - 1];
      NoLaterThanAll(init, t);
      assert rows == init + [rows[|rows| - 1]];
    }
  }

  /** For time-ordered packets the result is a non-empty prefix of the
      candidates in which no two neighbours are more than four seconds
      apart, and it ends at the last candidate or right before such a gap. */
  lemma FilterInterestingPrefix(packets: seq<Search.PacketRecord>, wikiIps: seq<string>, ts: int)
    requires SortedByTime(packets)
    requires FilterInteresting(packets, wikiIps, ts).Ok?
    ensures var poss, r := PossibleWiki(packets, wikiIps, ts), FilterInteresting(packets, wikiIps, ts).value;
      1 <= |r| <= |poss| && r == poss[..|r|] &&
      (forall i :: 0 <= i < |r| - 1 ==> r[i + 1].time <= r[i].time + TIME_LOAD_UNTIL_CLICK) &&
      (|r| == |poss| || poss[|r| - 1].time + TIME_LOAD_UNTIL_CLICK < poss[|r|].time)
  {
    var poss := PossibleWiki(packets, wikiIps, ts);
    PossibleWikiSorted(packets, wikiIps, ts);
    var k := FirstGap(poss, 0);
    NoLaterThanPrefix(poss, k);
    forall i | 0 <= i < k ensures poss[i + 1].time <= poss[i].time + TIME_LOAD_UNTIL_CLICK {
      assert !GapAfter(poss, i);
    }
  }

  // ---------------------------------------------------------------------
  // The comparer object

  class WikiFingerprintComparer {
    /** The Wikipedia addresses known so far, in the order they were added. */
    var wikiIps: seq<string>

    constructor ()
      ensures wikiIps == []
    {
      wikiIps := [];
    }

    /** feed_with_ip_domains: appends the address of every pair, in the
        order given, whose host is a Wikipedia host. */
    method FeedWithIpDomains(ipDomainMapping: seq<(string, string)>)
      modifies this
      ensures wikiIps == old(wikiIps) + WikiAddresses(ipDomainMapping)
    {
      var i := 0;
      while i < |ipDomainMapping|
        invariant 0 <= i <= |ipDomainMapping|
        invariant wikiIps == old(wikiIps) + WikiAddresses(ipDomainMapping[..i])
      {
        var ipDomain := ipDomainMapping[i];
        assert ipDomainMapping[..i + 1][..i] == ipDomainMapping[..i];
        if IsFromWiki(ipDomain.1) {
          wikiIps := wikiIps + [ipDomain.0];
        }
        i := i + 1;
      }
      assert ipDomainMapping[..i] == ipDomainMapping;
    }

    /** add_wiki_ips. */
    method AddWikiIps(ips: seq<string>)
      modifies this
      ensures wikiIps == old(wikiIps) + ips
    {
      wikiIps := wikiIps + ips;
    }
  }
}
