/** The trace of one Wikipedia page load, esqabe/wiki_trace.py: which
    addresses serve Wikipedia (from TLS server names and DNS answers that
    name a Wikipedia host), the packets exchanged with them, and the
    histogram of (direction, length) that the page fingerprint is made of. */
module WikiTraces {
  import opened Common
  import opened Packets
  import opened Utils
  import Search

  // ---------------------------------------------------------------------
  // Wikipedia host names

  /** The Wikipedia host names among `names`, in order. */
  function WikiNames(names: seq<string>): (r: seq<string>)
    ensures |r| <= |names|
  {
    if |names| == 0 then []
    else
      var n := names[|names| - 1];
      WikiNames(names[..|names| - 1]) + (if IsFromWiki(n) then [n] else [])
  }

  lemma {:induction false} WikiNamesMembers(names: seq<string>)
    ensures forall n :: n in WikiNames(names) <==> n in names && IsFromWiki(n)
  {
    if |names| > 0 {
      var init, n := names[..|names| - 1], names[|names| - 1];
      WikiNamesMembers(init);
      assert names == init + [n];
    }
  }

  lemma {:induction false} WikiNamesAppend(a: seq<string>, b: seq<string>)
    ensures WikiNames(a + b) == WikiNames(a) + WikiNames(b)
    decreases |b|
  {
    if |b| > 0 {
      var init, n := b[..|b| - 1], b[|b| - 1];
      WikiNamesAppend(a, init);
      assert (a + b)[..|a + b| - 1] == a + init;
      assert (a + b)[|a + b| - 1] == n;
    } else {
      assert a + b == a;
    }
  }

  /** The (address, lower-cased name) pairs of the A and AAAA answers that
      name a Wikipedia host, in order. */
  function WikiAnswers(answers: seq<DnsAnswer>): (r: seq<(string, string)>)
    ensures |r| <= |answers|
  {
    if |answers| == 0 then []
    else
      var a := answers[|answers| - 1];
      WikiAnswers(answers[..|answers| - 1]) +
        (if (a.rrType == DNS_A || a.rrType == DNS_AAAA) && IsFromWiki(Lower(a.name)) then [(a.addr, Lower(a.name))] else [])
  }

  /** The Wikipedia answers are exactly the address answers that name a
      Wikipedia host. */
  lemma {:induction false} WikiAnswersMembers(answers: seq<DnsAnswer>)
    ensures forall p :: p in WikiAnswers(answers) <==> p in AddressAnswers(answers) && IsFromWiki(p.1)
  {
    if |answers| > 0 {
      var init, a := answers[..|answers| - 1], answers[|answers| - 1];
      WikiAnswersMembers(init);
      AddressAnswersSnoc(answers);
    }
  }

  lemma AddressAnswersSnoc(answers: seq<DnsAnswer>)
    requires |answers| > 0
    ensures var a := answers[|answers| - 1];
      AddressAnswers(answers) == AddressAnswers(answers[..|answers| - 1]) +
        (if a.rrType == DNS_A || a.rrType == DNS_AAAA then [(a.addr, Lower(a.name))] else [])
  {
  }

  /** The addresses of a set of (address, name) pairs. */
  function Addresses(pairs: set<(string, string)>): set<string>
  {
    set p | p in pairs :: p.0
  }

  /** Every mapped address is a known Wikipedia address, paired with a
      Wikipedia host name. */
  ghost predicate WikiMapping(m: set<(string, string)>, w: set<string>)
  {
    forall p :: p in m ==> p.0 in w && IsFromWiki(p.1)
  }

  /** Adding pairs that all name Wikipedia hosts, with their addresses,
      keeps the mapping valid. */
  lemma WikiMappingUnion(m: set<(string, string)>, w: set<string>, pairs: set<(string, string)>)
    requires WikiMapping(m, w)
    requires forall p :: p in pairs ==> IsFromWiki(p.1)
    ensures WikiMapping(m + pairs, w + Addresses(pairs))
  {
  }

  lemma AddressesAdd(pairs: set<(string, string)>, p: (string, string))
    ensures Addresses(pairs + {p}) == Addresses(pairs) + {p.0}
  {
  }

  // ---------------------------------------------------------------------
  // What one frame contributes

  /** `__handle_ip` and what it calls, for a Wikipedia trace: a TCP packet
      whose payload decodes as TLS records pairs its destination with the
      Wikipedia server names of its ClientHellos and is recorded when every
      handshake record decoded; a UDP packet from port 53 that decodes as
      DNS pairs the Wikipedia A/AAAA answers and is recorded. Every paired
      address becomes a Wikipedia address. A recorded packet has no kind
      and no content (kept as `Data` and ""). */
  function WikiFrameEffect(f: Frame): Search.Effect
  {
    match f.link
    case NonIpFrame => Search.Effect({}, {}, None)
    case IpFrame(ip) =>
      match ip.transport
      case Tcp(seg) =>
        if seg.payloadLength == 0 || seg.records.None? then Search.Effect({}, {}, None)
        else
          var scan := ScanRecords(seg.records.value);
          var pairs := PairSet(ip.dst, WikiNames(scan.names));
          Search.Effect(Addresses(pairs), pairs,
            if scan.complete then Some(Search.PacketRecord(ip.src, ip.dst, seg.sport, seg.dport, f.time,
                                                           ip.payloadLength, IP_PROTO_TCP, Search.Data, ""))
            else None)
      case Udp(d) =>
        if d.sport != DNS_PORT || d.answers.None? then Search.Effect({}, {}, None)
        else
          var pairs := PairsOf(WikiAnswers(d.answers.value));
          Search.Effect(Addresses(pairs), pairs,
            Some(Search.PacketRecord(ip.src, ip.dst, d.sport, d.dport, f.time, ip.payloadLength, IP_PROTO_UDP, Search.Data, "")))
      case OtherTransport(_) => Search.Effect({}, {}, None)
  }

  /** A Wikipedia trace reads a frame like a search trace does and keeps
      only the pairs that name a Wikipedia host; it records exactly the
      packets a search trace records. */
  lemma WikiEffectFiltersSearch(f: Frame)
    ensures WikiFrameEffect(f).pairs == set p | p in Search.FrameEffect(f).pairs && IsFromWiki(p.1)
    ensures WikiFrameEffect(f).record.Some? <==> Search.FrameEffect(f).record.Some?
    ensures WikiFrameEffect(f).record.Some? ==>
      var w, s := WikiFrameEffect(f).record.value, Search.FrameEffect(f).record.value;
      w == s.(kind := Search.Data, content := "")
  {
    if f.link.IpFrame? {
      match f.link.ip.transport
      case Tcp(seg) =>
        if seg.payloadLength > 0 && seg.records.Some? {
          WikiNamesMembers(ScanRecords(seg.records.value).names);
        }
      case Udp(d) =>
        if d.sport == DNS_PORT && d.answers.Some? {
          WikiAnswersMembers(d.answers.value);
        }
      case OtherTransport(_) =>
    }
  }

  /** What a frame adds keeps the mapping valid. */
  lemma EffectKeepsMapping(f: Frame, m: set<(string, string)>, w: set<string>)
    requires WikiMapping(m, w)
    ensures WikiMapping(m + WikiFrameEffect(f).pairs, w + WikiFrameEffect(f).ips)
  {
    if f.link.IpFrame? {
      var ip := f.link.ip;
      match ip.transport
      case Tcp(seg) =>
        if seg.payloadLength > 0 && seg.records.Some? {
          WikiNamesMembers(ScanRecords(seg.records.value).names);
          WikiMappingUnion(m, w, PairSet(ip.dst, WikiNames(ScanRecords(seg.records.value).names)));
        }
      case Udp(d) =>
        if d.sport == DNS_PORT && d.answers.Some? {
          WikiAnswersMembers(d.answers.value);
          WikiMappingUnion(m, w, PairsOf(WikiAnswers(d.answers.value)));
        }
      case OtherTransport(_) =>
    }
  }

  function WikiIps(frames: seq<Frame>): set<string>
  {
    if |frames| == 0 then {} else WikiIps(frames[..|frames| - 1]) + WikiFrameEffect(frames[|frames| - 1]).ips
  }

  function WikiPairs(frames: seq<Frame>): set<(string, string)>
  {
    if |frames| == 0 then {} else WikiPairs(frames[..|frames| - 1]) + WikiFrameEffect(frames[|frames| - 1]).pairs
  }

  function WikiRecords(frames: seq<Frame>): seq<Search.PacketRecord>
  {
    if |frames| == 0 then []
    else
      var r := WikiFrameEffect(frames[|frames| - 1]).record;
      WikiRecords(frames[..|frames| - 1]) + (if r.Some? then [r.value] else [])
  }

  /** Every pair a capture yields names a Wikipedia host, and the Wikipedia
      addresses it yields are exactly the addresses of those pairs. */
  lemma {:induction false} WikiPairsSound(frames: seq<Frame>)
    ensures forall p :: p in WikiPairs(frames) ==> IsFromWiki(p.1)
    ensures WikiIps(frames) == Addresses(WikiPairs(frames))
  {
    if |frames| > 0 {
      var init := frames[..|frames| - 1];
      WikiPairsSound(init);
      var f := frames[|frames| - 1];
      WikiEffectFiltersSearch(f);
    }
  }

  // ---------------------------------------------------------------------
  // Filtering and the histogram

  /** `__filter_out`: the rows sent to or received from a Wikipedia address. */
  function KeepWiki(rows: seq<Search.PacketRecord>, ips: set<string>): (r: seq<Search.PacketRecord>)
    ensures |r| <= |rows|
  {
    if |rows| == 0 then []
    else
      var x := rows[|rows| - 1];
      KeepWiki(rows[..|rows| - 1], ips) + (if x.dst in ips || x.src in ips then [x] else [])
  }

  /** The kept rows are the rows that involve one of the addresses. */
  lemma {:induction false} KeepWikiMembers(rows: seq<Search.PacketRecord>, ips: set<string>)
    ensures forall x :: x in KeepWiki(rows, ips) <==> x in rows && (x.dst in ips || x.src in ips)
  {
    if |rows| > 0 {
      var init, x := rows[..|rows| - 1], rows[|rows| - 1];
      KeepWikiMembers(init, ips);
      assert rows == init + [x];
    }
  }

  /** Filtering twice by the same addresses filters once. */
  lemma {:induction false} KeepWikiIdempotent(rows: seq<Search.PacketRecord>, ips: set<string>)
    ensures KeepWiki(KeepWiki(rows, ips), ips) == KeepWiki(rows, ips)
  {
    if |rows| > 0 {
      var init, x := rows[..|rows| - 1], rows[|rows| - 1];
      KeepWikiIdempotent(init, ips);
      var k := KeepWiki(init, ips);
      if x.dst in ips || x.src in ips {
        var k' := k + [x];
        assert KeepWiki(rows, ips) == k';
        assert k'[..|k'| - 1] == k && k'[|k'| - 1] == x;
        assert KeepWiki(k', ips) == KeepWiki(k, ips) + [x];
      } else {
        assert KeepWiki(rows, ips) == k + [] == k;
      }
    }
  }

  /** The histogram key of a row: "0" when it goes to a Wikipedia address,
      "1" otherwise, a dash, and the IP payload length in decimal. */
  function HistogramKey(row: Search.PacketRecord, ips: set<string>): string
  {
    (if row.dst in ips then "0" else "1") + "-" + NatToString(row.length)
  }

  /** Two rows share a key exactly when they agree on direction and length. */
  lemma HistogramKeyInjective(a: Search.PacketRecord, b: Search.PacketRecord, ips: set<string>)
    ensures HistogramKey(a, ips) == HistogramKey(b, ips) <==> (a.dst in ips <==> b.dst in ips) && a.length == b.length
  {
    if HistogramKey(a, ips) == HistogramKey(b, ips) {
      var ka, kb := HistogramKey(a, ips), HistogramKey(b, ips);
      assert ka[0] == kb[0];
      assert NatToString(a.length) == ka[2..] == kb[2..] == NatToString(b.length);
      NatToStringInjective(a.length, b.length);
    }
  }

  /** `get_histogram`: for every key, the number of rows with that key. */
  function Histogram(rows: seq<Search.PacketRecord>, ips: set<string>): map<string, int>
  {
    if |rows| == 0 then map[]
    else
      var h := Histogram(rows[..|rows| - 1], ips);
      var k := HistogramKey(rows[|rows| - 1], ips);
      h[k := Get(h, k) + 1]
  }

  /** The number of rows whose key is `k`. */
  function KeyCount(rows: seq<Search.PacketRecord>, ips: set<string>, k: string): nat
  {
    if |rows| == 0 then 0
    else KeyCount(rows[..|rows| - 1], ips, k) + (if HistogramKey(rows[|rows| - 1], ips) == k then 1 else 0)
  }

  /** The histogram holds the keys of the rows and nothing else, each with
      the number of rows that have it. */
  lemma {:induction false} HistogramCounts(rows: seq<Search.PacketRecord>, ips: set<string>, k: string)
    ensures Get(Histogram(rows, ips), k) == KeyCount(rows, ips, k)
    ensures k in Histogram(rows, ips) <==> exists i :: 0 <= i < |rows| && HistogramKey(rows[i], ips) == k
  {
    if |rows| > 0 {
      var init := rows[..|rows| - 1];
      HistogramCounts(init, ips, k);
      assert forall i :: 0 <= i < |init| ==> init[i] == rows[i];
    }
  }

  /** Summed over distinct keys that cover the histogram, the counts add up
      to the number of rows. */
  lemma {:induction false} HistogramTotal(rows: seq<Search.PacketRecord>, ips: set<string>, ks: seq<string>)
    requires Distinct(ks)
    requires forall i :: 0 <= i < |rows| ==> HistogramKey(rows[i], ips) in ks
    ensures TotalOver(ks, Histogram(rows, ips)) == |rows|
  {
    if |rows| == 0 {
      TotalOverEmpty(ks);
    } else {
      var init := rows[..|rows| - 1];
      assert forall i :: 0 <= i < |init| ==> init[i] == rows[i];
      HistogramTotal(init, ips, ks);
      var h := Histogram(init, ips);
      var k := HistogramKey(rows[|rows| - 1], ips);
      TotalOverChange(ks, h, h[k := Get(h, k) + 1], k);
    }
  }

  lemma {:induction false} TotalOverEmpty(ks: seq<string>)
    ensures TotalOver(ks, map[]) == 0
  {
    if |ks| > 0 {
      TotalOverEmpty(ks[..|ks| - 1]);
    }
  }

  /** One extension of the loop of `__handle_tls`: the Wikipedia server
      names grow by the extension's host name when it names one. */
  lemma ExtensionNames(exts: seq<Extension>, k: nat)
    requires k < |exts|
    ensures var e := exts[k];
      WikiNames(ServerNames(exts[..k + 1])) == WikiNames(ServerNames(exts[..k])) +
        (if e.extType == SERVER_NAME_EXTENSION && IsFromWiki(SniDomain(e)) then [SniDomain(e)] else [])
  {
    ServerNamesSnoc(exts, k);
    var e := exts[k];
    if e.extType == SERVER_NAME_EXTENSION {
      WikiNamesAppend(ServerNames(exts[..k]), [SniDomain(e)]);
      assert WikiNames([SniDomain(e)]) == WikiNames([]) + (if IsFromWiki(SniDomain(e)) then [SniDomain(e)] else []);
    } else {
      assert ServerNames(exts[..k]) + [] == ServerNames(exts[..k]);
    }
  }

  /** One extension of the loop of `__handle_tls`: a Wikipedia server name
      adds its pair with the destination, and the destination; any other
      extension changes nothing. */
  lemma ExtensionStep(dst: string, exts: seq<Extension>, k: nat, m: set<(string, string)>, w: set<string>,
                      m': set<(string, string)>, w': set<string>)
    requires k < |exts|
    requires m' == m + PairSet(dst, WikiNames(ServerNames(exts[..k])))
    requires w' == w + Addresses(PairSet(dst, WikiNames(ServerNames(exts[..k]))))
    ensures var e := exts[k];
      e.extType == SERVER_NAME_EXTENSION && IsFromWiki(SniDomain(e)) ==>
        m' + {(dst, SniDomain(e))} == m + PairSet(dst, WikiNames(ServerNames(exts[..k + 1]))) &&
        w' + {dst} == w + Addresses(PairSet(dst, WikiNames(ServerNames(exts[..k + 1]))))
    ensures var e := exts[k];
      !(e.extType == SERVER_NAME_EXTENSION && IsFromWiki(SniDomain(e))) ==>
        m' == m + PairSet(dst, WikiNames(ServerNames(exts[..k + 1]))) &&
        w' == w + Addresses(PairSet(dst, WikiNames(ServerNames(exts[..k + 1]))))
  {
    var e, names := exts[k], WikiNames(ServerNames(exts[..k]));
    ExtensionNames(exts, k);
    if e.extType == SERVER_NAME_EXTENSION && IsFromWiki(SniDomain(e)) {
      var p := (dst, SniDomain(e));
      PairSetSnoc(dst, names, SniDomain(e));
      AddressesAdd(PairSet(dst, names), p);
      UnionAssoc(m, PairSet(dst, names), {p});
      UnionAssoc(w, Addresses(PairSet(dst, names)), {dst});
    } else {
      assert names + [] == names;
    }
  }

  /** One ClientHello of the loop of `__handle_tls`: its Wikipedia names
      add their pairs and their address to those met before. */
  lemma HelloScanStep(dst: string, before: seq<string>, hello: seq<string>)
    ensures PairSet(dst, WikiNames(before + hello)) == PairSet(dst, WikiNames(before)) + PairSet(dst, WikiNames(hello))
    ensures Addresses(PairSet(dst, WikiNames(before + hello))) ==
      Addresses(PairSet(dst, WikiNames(before))) + Addresses(PairSet(dst, WikiNames(hello)))
  {
    WikiNamesAppend(before, hello);
    PairSetAppend(dst, WikiNames(before), WikiNames(hello));
  }

  /** One answer of the loop of `__handle_dns`: a Wikipedia answer adds
      its pair to the mapping and its address to the addresses; any other
      answer changes nothing. */
  lemma AnswerStep(answers: seq<DnsAnswer>, i: nat, m: set<(string, string)>, w: set<string>,
                   m': set<(string, string)>, w': set<string>)
    requires i < |answers|
    requires m' == m + PairsOf(WikiAnswers(answers[..i]))
    requires w' == w + Addresses(PairsOf(WikiAnswers(answers[..i])))
    ensures var a := answers[i];
      (a.rrType == DNS_A || a.rrType == DNS_AAAA) && IsFromWiki(Lower(a.name)) ==>
        m' + {(a.addr, Lower(a.name))} == m + PairsOf(WikiAnswers(answers[..i + 1])) &&
        w' + {a.addr} == w + Addresses(PairsOf(WikiAnswers(answers[..i + 1])))
    ensures var a := answers[i];
      !((a.rrType == DNS_A || a.rrType == DNS_AAAA) && IsFromWiki(Lower(a.name))) ==>
        m' == m + PairsOf(WikiAnswers(answers[..i + 1])) &&
        w' == w + Addresses(PairsOf(WikiAnswers(answers[..i + 1])))
  {
    var a, pairs := answers[i], PairsOf(WikiAnswers(answers[..i]));
    assert answers[..i + 1][..i] == answers[..i];
    if (a.rrType == DNS_A || a.rrType == DNS_AAAA) && IsFromWiki(Lower(a.name)) {
      var p := (a.addr, Lower(a.name));
      assert PairsOf(WikiAnswers(answers[..i + 1])) == pairs + {p};
      AddressesAdd(pairs, p);
      UnionAssoc(m, pairs, {p});
      UnionAssoc(w, Addresses(pairs), {a.addr});
    } else {
      assert WikiAnswers(answers[..i + 1]) == WikiAnswers(answers[..i]) + [];
    }
  }

  // ---------------------------------------------------------------------
  // The trace object

  class WikiTrace {
    const pcap: seq<Frame>
    const url: string
    const id: string
    var wikiIps: set<string>
    var mapping: set<(string, string)>
    var packets: seq<Search.PacketRecord>
    /** The packet frame; `None` until it is first built from `packets`. */
    var packetsDf: Option<seq<Search.PacketRecord>>

    /** Every mapped address is a Wikipedia address, paired with a
        Wikipedia host name. */
    ghost predicate Valid()
      reads this
    {
      WikiMapping(mapping, wikiIps)
    }

    constructor (pcap: seq<Frame>, url: string, id: string)
      ensures Valid()
      ensures this.pcap == pcap && this.url == url && this.id == id
      ensures wikiIps == {} && mapping == {} && packets == [] && packetsDf == None
    {
      this.pcap, this.url, this.id := pcap, url, id;
      wikiIps, mapping, packets, packetsDf := {}, {}, [], None;
    }

    /** The frame `_init_df` builds or keeps. */
    function Frame0(): seq<Search.PacketRecord>
      reads this
    {
      if packetsDf.None? then packets else packetsDf.value
    }

    /** `_init_df`: builds the frame from the packets when there is none yet
        or when forced. */
    method InitDf(force: bool)
      modifies this
      ensures packetsDf == Some(if force then old(packets) else old(Frame0()))
      ensures wikiIps == old(wikiIps) && mapping == old(mapping) && packets == old(packets)
    {
      if packetsDf.None? || force {
        packetsDf := Some(packets);
      }
    }

    /** get_packets_df. */
    method GetPacketsDf() returns (df: seq<Search.PacketRecord>)
      modifies this
      ensures df == old(Frame0()) && packetsDf == Some(df)
      ensures wikiIps == old(wikiIps) && mapping == old(mapping) && packets == old(packets)
    {
      InitDf(false);
      df := packetsDf.value;
    }

    /** insert_df. */
    method InsertDf(df: seq<Search.PacketRecord>)
      modifies this
      ensures packetsDf == Some(df)
      ensures wikiIps == old(wikiIps) && mapping == old(mapping) && packets == old(packets)
    {
      packetsDf := Some(df);
    }

    /** extend_wiki_ips. */
    method ExtendWikiIps(ips: set<string>)
      requires Valid()
      modifies this
      ensures Valid()
      ensures wikiIps == old(wikiIps) + ips
      ensures mapping == old(mapping) && packets == old(packets) && packetsDf == old(packetsDf)
    {
      wikiIps := wikiIps + ips;
    }

    /** ip_to_domain: a name paired with the address, if any. */
    method IpToDomain(ip: string) returns (d: Option<string>)
      ensures d.Some? ==> (ip, d.value) in mapping
      ensures d.None? <==> forall p :: p in mapping ==> p.0 != ip
    {
      var pairs := mapping;
      while pairs != {}
        invariant pairs <= mapping
        invariant forall p :: p in mapping - pairs ==> p.0 != ip
        decreases |pairs|
      {
        SomePair(pairs);
        var p :| p in pairs;
        if p.0 == ip {
          return Some(p.1);
        }
        pairs := pairs - {p};
      }
      return None;
    }

    /** parse: handles every frame of the capture, records the handled ones,
        then keeps the rows that involve a Wikipedia address. */
    method Parse()
      requires Valid()
      modifies this
      ensures Valid()
      ensures packets == old(packets) + WikiRecords(pcap)
      ensures wikiIps == old(wikiIps) + WikiIps(pcap)
      ensures mapping == old(mapping) + WikiPairs(pcap)
      ensures packetsDf == Some(KeepWiki(if old(packetsDf).None? then packets else old(packetsDf).value, wikiIps))
    {
      var i := 0;
      while i < |pcap|
        invariant 0 <= i <= |pcap| && Valid() && packetsDf == old(packetsDf)
        invariant packets == old(packets) + WikiRecords(pcap[..i])
        invariant wikiIps == old(wikiIps) + WikiIps(pcap[..i])
        invariant mapping == old(mapping) + WikiPairs(pcap[..i])
      {
        var record := HandleIp(pcap[i]);
        if record.Some? {
          packets := packets + [record.value];
        }
        assert pcap[..i + 1][..i] == pcap[..i];
        i := i + 1;
      }
      assert pcap[..i] == pcap;
      FilterOut();
    }

    /** `__filter_out`. */
    method FilterOut()
      modifies this
      ensures packetsDf == Some(KeepWiki(old(Frame0()), wikiIps))
      ensures wikiIps == old(wikiIps) && mapping == old(mapping) && packets == old(packets)
    {
      InitDf(false);
      packetsDf := Some(KeepWiki(packetsDf.value, wikiIps));
    }

    /** get_histogram. */
    method GetHistogram() returns (histogram: map<string, int>)
      modifies this
      ensures packetsDf == Some(old(Frame0()))
      ensures histogram == Histogram(old(Frame0()), wikiIps)
      ensures wikiIps == old(wikiIps) && mapping == old(mapping) && packets == old(packets)
    {
      InitDf(false);
      var rows := packetsDf.value;
      histogram := map[];
      var i := 0;
      while i < |rows|
        invariant 0 <= i <= |rows|
        invariant histogram == Histogram(rows[..i], wikiIps)
      {
        var row := rows[i];
        var direction := "1";
        if row.dst in wikiIps {
          direction := "0";
        }
        var k := direction + "-" + NatToString(row.length);
        if k in histogram {
          histogram := histogram[k := histogram[k] + 1];
        } else {
          histogram := histogram[k := 1];
        }
        assert rows[..i + 1][..i] == rows[..i];
        i := i + 1;
      }
      assert rows[..i] == rows;
    }

    /** `__handle_ip` with its TCP and UDP branches. */
    method HandleIp(f: Frame) returns (record: Option<Search.PacketRecord>)
      requires Valid()
      modifies this
      ensures Valid()
      ensures wikiIps == old(wikiIps) + WikiFrameEffect(f).ips
      ensures mapping == old(mapping) + WikiFrameEffect(f).pairs
      ensures record == WikiFrameEffect(f).record
      ensures packets == old(packets) && packetsDf == old(packetsDf)
    {
      if f.link.NonIpFrame? {
        return None;
      }
      var ip := f.link.ip;
      match ip.transport
      case Tcp(seg) =>
        record := HandleTls(f, ip, seg);
      case Udp(d) =>
        record := HandleDns(f, ip, d);
      case OtherTransport(_) =>
        record := None;
    }

    /** `__handle_tls`: walks the records and their ClientHello extensions,
        pairing the destination with every Wikipedia server name; a
        handshake record that does not decode drops the packet (the pairs
        stay). */
    method HandleTls(f: Frame, ip: IpPacket, seg: TcpSegment) returns (record: Option<Search.PacketRecord>)
      requires f.link == IpFrame(ip) && ip.transport == Tcp(seg)
      requires Valid()
      modifies this
      ensures Valid()
      ensures wikiIps == old(wikiIps) + WikiFrameEffect(f).ips
      ensures mapping == old(mapping) + WikiFrameEffect(f).pairs
      ensures record == WikiFrameEffect(f).record
      ensures packets == old(packets) && packetsDf == old(packetsDf)
    {
      EffectKeepsMapping(f, mapping, wikiIps);
      if seg.payloadLength == 0 || seg.records.None? {
        return None;
      }
      var complete := HandleRecords(ip.dst, seg.records.value);
      if !complete {
        return None;
      }
      record := Some(Search.PacketRecord(ip.src, ip.dst, seg.sport, seg.dport, f.time, ip.payloadLength, IP_PROTO_TCP, Search.Data, ""));
    }

    /** The record loop of `__handle_tls`: false as soon as a handshake
        record does not decode, true once every record was handled. */
    method HandleRecords(dst: string, records: seq<TlsRecord>) returns (complete: bool)
      modifies this
      ensures complete == ScanRecords(records).complete
      ensures mapping == old(mapping) + PairSet(dst, WikiNames(ScanRecords(records).names))
      ensures wikiIps == old(wikiIps) + Addresses(PairSet(dst, WikiNames(ScanRecords(records).names)))
      ensures packets == old(packets) && packetsDf == old(packetsDf)
    {
      ghost var m0, w0 := mapping, wikiIps;
      var i := 0;
      while i < |records|
        invariant 0 <= i <= |records|
        invariant ScanRecords(records[..i]).complete
        invariant mapping == m0 + PairSet(dst, WikiNames(ScanRecords(records[..i]).names))
        invariant wikiIps == w0 + Addresses(PairSet(dst, WikiNames(ScanRecords(records[..i]).names)))
        invariant packets == old(packets) && packetsDf == old(packetsDf)
      {
        var rec := records[i];
        ScanRecordsSnoc(records, i);
        if rec.contentType == TLS_HANDSHAKE {
          if rec.handshake.None? {
            ScanStops(records, i + 1);
            return false;
          }
          var hs := rec.handshake.value;
          if hs.hsType == TLS_CLIENT_HELLO && hs.extensions.Some? {
            ghost var before := PairSet(dst, WikiNames(ScanRecords(records[..i]).names));
            ghost var hello := PairSet(dst, WikiNames(HelloNames(hs)));
            HelloScanStep(dst, ScanRecords(records[..i]).names, HelloNames(hs));
            HandleHello(dst, hs.extensions.value);
            UnionAssoc(m0, before, hello);
            UnionAssoc(w0, Addresses(before), Addresses(hello));
          } else {
            assert ScanRecords(records[..i]).names + [] == ScanRecords(records[..i]).names;
          }
        }
        i := i + 1;
      }
      assert records[..i] == records;
      return true;
    }

    /** The extension loop of `__handle_tls` for one ClientHello: every
        server name of a Wikipedia host is paired with the destination,
        which becomes a Wikipedia address. */
    method HandleHello(dst: string, exts: seq<Extension>)
      modifies this
      ensures mapping == old(mapping) + PairSet(dst, WikiNames(ServerNames(exts)))
      ensures wikiIps == old(wikiIps) + Addresses(PairSet(dst, WikiNames(ServerNames(exts))))
      ensures packets == old(packets) && packetsDf == old(packetsDf)
    {
      mapping, wikiIps := AddHelloNames(mapping, wikiIps, dst, exts);
    }

    /** `__handle_dns`: the Wikipedia answers of a port-53 datagram that
        decodes as DNS. */
    method HandleDns(f: Frame, ip: IpPacket, d: UdpDatagram) returns (record: Option<Search.PacketRecord>)
      requires f.link == IpFrame(ip) && ip.transport == Udp(d)
      requires Valid()
      modifies this
      ensures Valid()
      ensures wikiIps == old(wikiIps) + WikiFrameEffect(f).ips
      ensures mapping == old(mapping) + WikiFrameEffect(f).pairs
      ensures record == WikiFrameEffect(f).record
      ensures packets == old(packets) && packetsDf == old(packetsDf)
    {
      EffectKeepsMapping(f, mapping, wikiIps);
      if d.sport != DNS_PORT || d.answers.None? {
        return None;
      }
      HandleAnswers(d.answers.value);
      record := Some(Search.PacketRecord(ip.src, ip.dst, d.sport, d.dport, f.time, ip.payloadLength, IP_PROTO_UDP, Search.Data, ""));
    }

    /** The answer loop of `__handle_dns`: every A or AAAA answer naming a
        Wikipedia host pairs its address with the lower-cased name and makes
        the address a Wikipedia address. */
    method HandleAnswers(answers: seq<DnsAnswer>)
      modifies this
      ensures mapping == old(mapping) + PairsOf(WikiAnswers(answers))
      ensures wikiIps == old(wikiIps) + Addresses(PairsOf(WikiAnswers(answers)))
      ensures packets == old(packets) && packetsDf == old(packetsDf)
    {
      mapping, wikiIps := AddAnswers(mapping, wikiIps, answers);
    }
  }

  /** The loop of HandleHello on the mapping `m` and the addresses `w`. */
  method AddHelloNames(m: set<(string, string)>, w: set<string>, dst: string, exts: seq<Extension>)
    returns (m': set<(string, string)>, w': set<string>)
    ensures m' == m + PairSet(dst, WikiNames(ServerNames(exts)))
    ensures w' == w + Addresses(PairSet(dst, WikiNames(ServerNames(exts))))
  {
    m', w' := m, w;
    var k := 0;
    while k < |exts|
      invariant 0 <= k <= |exts|
      invariant m' == m + PairSet(dst, WikiNames(ServerNames(exts[..k])))
      invariant w' == w + Addresses(PairSet(dst, WikiNames(ServerNames(exts[..k]))))
    {
      var ext := exts[k];
      ExtensionStep(dst, exts, k, m, w, m', w');
      if ext.extType == SERVER_NAME_EXTENSION {
        var domainName := SniDomain(ext);
        if IsFromWiki(domainName) {
          m', w' := m' + {(dst, domainName)}, w' + {dst};
        }
      }
      k := k + 1;
    }
    assert exts[..k] == exts;
  }

  /** The loop of HandleAnswers on the mapping `m` and the addresses `w`. */
  method AddAnswers(m: set<(string, string)>, w: set<string>, answers: seq<DnsAnswer>)
    returns (m': set<(string, string)>, w': set<string>)
    ensures m' == m + PairsOf(WikiAnswers(answers))
    ensures w' == w + Addresses(PairsOf(WikiAnswers(answers)))
  {
    m', w' := m, w;
    var i := 0;
    while i < |answers|
      invariant 0 <= i <= |answers|
      invariant m' == m + PairsOf(WikiAnswers(answers[..i]))
      invariant w' == w + Addresses(PairsOf(WikiAnswers(answers[..i])))
    {
      var a := answers[i];
      AnswerStep(answers, i, m, w, m', w');
      // An A answer carries an IPv4 address, an AAAA answer an IPv6 one;
      // both are kept as the address text.
      if (a.rrType == DNS_A || a.rrType == DNS_AAAA) && IsFromWiki(Lower(a.name)) {
        m', w' := m' + {(a.addr, Lower(a.name))}, w' + {a.addr};
      }
      i := i + 1;
    }
    assert answers[..i] == answers;
  }
}
