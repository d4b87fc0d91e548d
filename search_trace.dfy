/** The search-side trace of esqabe/search_trace.py: which servers a capture
    talked to, which host names those servers answer to (from TLS server
    names and DNS answers), and which websites the user probably visited
    after the search, judged by the volume of traffic that follows each
    ClientHello announcing an interesting host name. */
module Search {
  import opened Common
  import opened Buckets
  import opened Packets

  /** A packet counts toward the "bigger" servers from this IP length on. */
  const MIN_INTERESTING_LENGTH := 1240
  /** The visit guesser groups traffic into windows of this many ms ... */
  const GUESS_WINDOW := 1000
  /** ... looks this far ahead of a ClientHello ... */
  const LOOKAHEAD := 4000
  /** ... wants more than this many bytes there ... */
  const VISIT_VOLUME := 50000
  /** ... and ends a visit after this much quiet between interesting names. */
  const VISIT_GAP := 3000

  /** Host names of infrastructure (content delivery, analytics, telemetry)
      that never count as a visited website. */
  const AVOID_KEYWORDS: seq<string> := [
    "cdn", "static", "doubleclick", "api.", "cloudfront", "map.fastly.net", "googleapis.com",
    "code.jquery.com", "hit.gemius.pl", "akamaiedge.net", "dropbox.com", "hotjar.com",
    "opera.com", "s.section.io", "adobess.com", "omtrdc.net", "demdex.net", "adservice.google",
    "global.fastly.net", "hello.myfonts.net", "adobedtm.com", "ping.chartbeat.net",
    "drive.google.com", "resources.jetbrains.com", "js-agent.newrelic.com",
    "googletagmanager.com", "stackstorage.com", "mail.me.com", "ytimg.com",
    "mozilla.cloudflare-dns.com", "services.mozilla.com", "telemetry.mozilla.org"]

  datatype PacketType = Data | ClientHelloSni

  /** One recorded packet: addresses, ports, time (ms), IP payload length,
      IP protocol, and whether it announced a server name (`content`, the
      last name announced; empty otherwise). */
  datatype PacketRecord = PacketRecord(src: string, dst: string, sport: nat, dport: nat, time: int,
                                       length: nat, protocol: nat, kind: PacketType, content: string)

  // ---------------------------------------------------------------------
  // Domain filter

  /** `__is_intersting_domain`: no deny-listed keyword occurs in the name. */
  predicate IsInterestingDomain(domain: string)
  {
    forall k :: 0 <= k < |AVOID_KEYWORDS| ==> !Contains(domain, AVOID_KEYWORDS[k])
  }

  /** A name that contains an uninteresting name is uninteresting itself:
      whatever holds a deny-listed keyword's host holds the keyword. */
  lemma UninterestingInside(domain: string, inner: string)
    requires Contains(domain, inner) && !IsInterestingDomain(inner)
    ensures !IsInterestingDomain(domain)
  {
    var k :| 0 <= k < |AVOID_KEYWORDS| && Contains(inner, AVOID_KEYWORDS[k]);
    ContainsTrans(domain, inner, AVOID_KEYWORDS[k]);
  }

  /** Every keyword rules out the name that is the keyword itself. */
  lemma KeywordsAreUninteresting(k: nat)
    requires k < |AVOID_KEYWORDS|
    ensures !IsInterestingDomain(AVOID_KEYWORDS[k])
  {
    var w := AVOID_KEYWORDS[k];
    assert OccursAt(w, w, 0);
  }

  // ---------------------------------------------------------------------
  // What one frame contributes

  /** The addresses, the (address, host name) pairs and the recorded packet
      that handling one frame yields. */
  datatype Effect = Effect(ips: set<string>, pairs: set<(string, string)>, record: Option<PacketRecord>)

  /** The packet kind and content after announcing `names` in order. */
  function Marking(names: seq<string>): (PacketType, string)
  {
    if |names| == 0 then (Data, "") else (ClientHelloSni, names[|names| - 1])
  }

  /** A name announced last decides the marking. */
  lemma MarkingSnoc(before: seq<string>, names: seq<string>, n: string)
    ensures Marking(before + (names + [n])) == (ClientHelloSni, n)
  {
  }

  /** `__handle_ip` and what it calls: a TCP packet adds both addresses and,
      when its payload decodes as TLS records, the server names of its
      ClientHellos paired with the destination; it is recorded only when
      every handshake record decoded. A UDP packet from port 53 that decodes
      as DNS adds the A/AAAA answers and is recorded. Nothing else is. */
  function FrameEffect(f: Frame): Effect
  {
    match f.link
    case NonIpFrame => Effect({}, {}, None)
    case IpFrame(ip) =>
      match ip.transport
      case Tcp(seg) =>
        var addrs := {ip.src, ip.dst};
        if seg.payloadLength == 0 || seg.records.None? then Effect(addrs, {}, None)
        else
          var scan := ScanRecords(seg.records.value);
          var mark := Marking(scan.names);
          Effect(addrs, PairSet(ip.dst, scan.names),
            if scan.complete then Some(PacketRecord(ip.src, ip.dst, seg.sport, seg.dport, f.time,
                                                    ip.payloadLength, IP_PROTO_TCP, mark.0, mark.1))
            else None)
      case Udp(d) =>
        if d.sport != DNS_PORT || d.answers.None? then Effect({}, {}, None)
        else
          Effect({}, PairsOf(AddressAnswers(d.answers.value)),
            Some(PacketRecord(ip.src, ip.dst, d.sport, d.dport, f.time, ip.payloadLength, IP_PROTO_UDP, Data, "")))
      case OtherTransport(_) => Effect({}, {}, None)
  }

  /** Server-name pairs name the destination of a TCP packet and a host
      announced by one of its ClientHellos; DNS pairs come only from
      port-53 answers of type A or AAAA, lower-cased. */
  lemma EffectPairs(f: Frame, p: (string, string))
    requires p in FrameEffect(f).pairs
    ensures f.link.IpFrame? && !f.link.ip.transport.OtherTransport?
    ensures f.link.ip.transport.Tcp? ==>
      var seg := f.link.ip.transport.segment;
      p.0 == f.link.ip.dst && seg.payloadLength > 0 && seg.records.Some? &&
      exists rec :: rec in seg.records.value && rec.contentType == TLS_HANDSHAKE &&
        rec.handshake.Some? && p.1 in HelloNames(rec.handshake.value)
    ensures f.link.ip.transport.Udp? ==>
      var d := f.link.ip.transport.datagram;
      d.sport == DNS_PORT && d.answers.Some? &&
      exists a :: a in d.answers.value && (a.rrType == DNS_A || a.rrType == DNS_AAAA) && p == (a.addr, Lower(a.name))
  {
    var t := f.link.ip.transport;
    if t.Tcp? {
      assert p.1 in ScanRecords(t.segment.records.value).names;
    } else {
      AddressAnswersMembers(t.datagram.answers.value);
      assert p in AddressAnswers(t.datagram.answers.value);
    }
  }

  /** Conversely, a TCP packet whose payload decodes as TLS records pairs its
      destination with every server name of each decoded handshake record
      met before any handshake record failed to decode. */
  lemma HelloPairsAdded(f: Frame, i: nat)
    requires f.link.IpFrame? && f.link.ip.transport.Tcp?
    requires var seg := f.link.ip.transport.segment;
      seg.payloadLength > 0 && seg.records.Some? && i < |seg.records.value| &&
      ScanRecords(seg.records.value[..i]).complete &&
      seg.records.value[i].contentType == TLS_HANDSHAKE && seg.records.value[i].handshake.Some?
    ensures var rec := f.link.ip.transport.segment.records.value[i];
      forall n :: n in HelloNames(rec.handshake.value) ==> (f.link.ip.dst, n) in FrameEffect(f).pairs
  {
    HelloNamesScanned(f.link.ip.transport.segment.records.value, i);
  }

  /** A ClientHello record is marked with the last host name it announced. */
  lemma SniRecordNamesLastHost(f: Frame)
    requires FrameEffect(f).record.Some? && FrameEffect(f).record.value.kind == ClientHelloSni
    ensures var r := FrameEffect(f).record.value;
      f.link.IpFrame? && f.link.ip.transport.Tcp? && (r.dst, r.content) in FrameEffect(f).pairs
  {
  }

  function AllIps(frames: seq<Frame>): set<string>
  {
    if |frames| == 0 then {} else AllIps(frames[..|frames| - 1]) + FrameEffect(frames[|frames| - 1]).ips
  }

  function AllPairs(frames: seq<Frame>): set<(string, string)>
  {
    if |frames| == 0 then {} else AllPairs(frames[..|frames| - 1]) + FrameEffect(frames[|frames| - 1]).pairs
  }

  function Records(frames: seq<Frame>): seq<PacketRecord>
  {
    if |frames| == 0 then []
    else
      var r := FrameEffect(frames[|frames| - 1]).record;
      Records(frames[..|frames| - 1]) + (if r.Some? then [r.value] else [])
  }

  /** `__is_interesting_ip`: a TCP packet of at least 1240 bytes after the
      minimum time. */
  predicate IsInterestingIp(f: Frame, minimumTime: int)
  {
    f.link.IpFrame? && f.link.ip.transport.Tcp? &&
    f.link.ip.totalLength >= MIN_INTERESTING_LENGTH && f.time > minimumTime
  }

  /** The addresses of the interesting packets (`ips_of_bigger`). */
  function Bigger(frames: seq<Frame>, minimumTime: int): set<string>
  {
    if |frames| == 0 then {}
    else
      var f := frames[|frames| - 1];
      Bigger(frames[..|frames| - 1], minimumTime) +
        (if IsInterestingIp(f, minimumTime) then {f.link.ip.src, f.link.ip.dst} else {})
  }

  /** An address is bigger exactly when some interesting packet has it as
      source or destination. */
  lemma {:induction false} BiggerMembers(frames: seq<Frame>, minimumTime: int, a: string)
    ensures a in Bigger(frames, minimumTime) <==>
      exists k :: 0 <= k < |frames| && IsInterestingIp(frames[k], minimumTime) &&
        (a == frames[k].link.ip.src || a == frames[k].link.ip.dst)
  {
    if |frames| > 0 {
      var init := frames[..|frames| - 1];
      BiggerMembers(init, minimumTime, a);
      assert forall k :: 0 <= k < |init| ==> init[k] == frames[k];
    }
  }

  /** The addresses `__filter_out` keeps: bigger ones not paired with an
      uninteresting host name. */
  function FilteredIps(ips: set<string>, mapping: set<(string, string)>, bigger: set<string>): set<string>
  {
    (ips * bigger) - (set p | p in mapping && !IsInterestingDomain(p.1) :: p.0)
  }

  /** The pairs `__filter_out` keeps: bigger addresses with interesting names. */
  function FilteredPairs(mapping: set<(string, string)>, bigger: set<string>): set<(string, string)>
  {
    set p | p in mapping && p.0 in bigger && IsInterestingDomain(p.1)
  }

  /** After filtering, every address is bigger, was known before and is
      paired with no uninteresting name; every pair was there before, has a
      bigger address and an interesting name. */
  lemma FilterOutKeeps(ips: set<string>, mapping: set<(string, string)>, bigger: set<string>)
    ensures var ips' := FilteredIps(ips, mapping, bigger);
      ips' <= ips && ips' <= bigger &&
      forall p :: p in mapping && p.0 in ips' ==> IsInterestingDomain(p.1)
    ensures var m' := FilteredPairs(mapping, bigger);
      m' <= mapping && forall p :: p in m' ==> p.0 in bigger && IsInterestingDomain(p.1)
  {
  }

  // ---------------------------------------------------------------------
  // Visit guessing

  /** A ClientHello announcing `domain` at `time`. */
  datatype SniEvent = SniEvent(domain: string, time: int)

  /** The rows of the packet frame that announced a server name, in order. */
  function SniEvents(packets: seq<PacketRecord>): (r: seq<SniEvent>)
    ensures |r| <= |packets|
  {
    if |packets| == 0 then []
    else
      var p := packets[|packets| - 1];
      SniEvents(packets[..|packets| - 1]) + (if p.kind == ClientHelloSni then [SniEvent(p.content, p.time)] else [])
  }

  /** The (time, length) columns of the recorded packets. Kreep's `Samples`
      does the same for its own row type; the two capture records differ,
      and only the bucketing they feed is shared. */
  function PacketSamples(packets: seq<PacketRecord>): (s: seq<Sample>)
    ensures |s| == |packets|
    ensures forall i :: 0 <= i < |packets| ==> s[i] == Sample(packets[i].time, packets[i].length)
  {
    seq(|packets|, i requires 0 <= i < |packets| => Sample(packets[i].time, packets[i].length))
  }

  /** The last key of the grouped frame: the latest occupied window. */
  function LastKey(s: seq<Sample>, w: nat): (k: int)
    requires w > 0 && |s| > 0
    ensures k in Keys(s, w)
    ensures forall i :: 0 <= i < |s| ==> BucketOf(s[i].time, w) <= k
  {
    var b := BucketOf(s[|s| - 1].time, w);
    if |s| == 1 then b
    else
      var k := LastKey(s[..|s| - 1], w);
      assert forall i :: 0 <= i < |s| - 1 ==> s[..|s| - 1][i] == s[i];
      KeysSnoc(s, w);
      if b > k then b else k
  }

  /** What the guesser reads besides the announcements: the minimum time,
      the grouped traffic and its last key. */
  datatype GuessContext = GuessContext(minimumTime: int, agg: map<int, int>, last: int)

  function Context(packets: seq<PacketRecord>, minimumTime: int): GuessContext
  {
    var s := PacketSamples(packets);
    GuessContext(minimumTime, Aggregate(s, GUESS_WINDOW), if |s| > 0 then LastKey(s, GUESS_WINDOW) else 0)
  }

  function Min(a: int, b: int): int
  {
    if a < b then a else b
  }

  /** `next_len`: the traffic in the windows from the announcement's window
      up to four seconds on, not beyond the last window. */
  function Volume(ctx: GuessContext, e: SniEvent): int
  {
    var lo := BucketOf(e.time, GUESS_WINDOW);
    ForwardVolume(ctx.agg, lo, Min(lo + LOOKAHEAD, ctx.last), GUESS_WINDOW)
  }

  /** The guesser's state: the time of the last interesting announcement,
      whether a visit is under way, and the guesses so far. */
  datatype Visit = Visit(prev: Option<int>, active: bool, guesses: seq<(string, int)>)

  predicate Interesting(e: SniEvent)
  {
    IsInterestingDomain(e.domain) && !Contains(e.domain, "google")
  }

  /** No interesting announcement yet, or the last one is over 3 s old. */
  predicate LongAgo(v: Visit, e: SniEvent)
  {
    v.prev.None? || e.time - v.prev.value > VISIT_GAP
  }

  predicate StillActive(v: Visit, e: SniEvent)
  {
    !LongAgo(v, e) && v.active
  }

  /** The announcement starts a visit and is guessed. */
  predicate Emit(ctx: GuessContext, v: Visit, e: SniEvent)
  {
    e.time >= ctx.minimumTime && !StillActive(v, e) && Interesting(e) && Volume(ctx, e) > VISIT_VOLUME
  }

  /** One pass of the guessing loop; announcements before the minimum time
      are skipped. */
  function Step(ctx: GuessContext, v: Visit, e: SniEvent): Visit
  {
    if e.time < ctx.minimumTime then v
    else
      var emit := Emit(ctx, v, e);
      Visit(if Interesting(e) then Some(e.time) else v.prev,
            StillActive(v, e) || emit,
            v.guesses + (if emit then [(e.domain, e.time)] else []))
  }

  /** The state after the first `n` announcements. */
  function Run(ctx: GuessContext, events: seq<SniEvent>, n: nat): Visit
    requires n <= |events|
  {
    if n == 0 then Visit(None, false, []) else Step(ctx, Run(ctx, events, n - 1), events[n - 1])
  }

  /** make_website_guess, as a value. */
  function WebsiteGuesses(packets: seq<PacketRecord>, minimumTime: int): seq<(string, int)>
  {
    var events := SniEvents(packets);
    Run(Context(packets, minimumTime), events, |events|).guesses
  }

  /** Announcement `k` is guessed. */
  predicate Emits(ctx: GuessContext, events: seq<SniEvent>, k: nat)
    requires k < |events|
  {
    Emit(ctx, Run(ctx, events, k), events[k])
  }

  /** Announcement `k` comes more than 3 s after the last interesting one
      (or there was none) and is not skipped. */
  predicate GapAt(ctx: GuessContext, events: seq<SniEvent>, k: nat)
    requires k < |events|
  {
    events[k].time >= ctx.minimumTime && LongAgo(Run(ctx, events, k), events[k])
  }

  /** The guessed announcements among the first `n`, in announcement order:
      a filter of the positions, independent of how the guesses are stored. */
  function Emitted(ctx: GuessContext, events: seq<SniEvent>, n: nat): seq<(string, int)>
    requires n <= |events|
  {
    if n == 0 then []
    else
      var k := n - 1;
      Emitted(ctx, events, k) + (if Emits(ctx, events, k) then [(events[k].domain, events[k].time)] else [])
  }

  /** The guesses are exactly the guessed announcements, in announcement
      order: each emitting announcement is appended once, nothing else is. */
  lemma {:induction false} GuessesAreEmitted(ctx: GuessContext, events: seq<SniEvent>, n: nat)
    requires n <= |events|
    ensures Run(ctx, events, n).guesses == Emitted(ctx, events, n)
  {
    if n > 0 {
      GuessesAreEmitted(ctx, events, n - 1);
    }
  }

  /** A pair is among the first `n` guessed announcements exactly when some
      announcement `k < n` that is guessed carries that name and time. */
  lemma {:induction false} EmittedMembers(ctx: GuessContext, events: seq<SniEvent>, n: nat, g: (string, int))
    requires n <= |events|
    ensures g in Emitted(ctx, events, n) <==>
      exists k :: 0 <= k < n && Emits(ctx, events, k) && g == (events[k].domain, events[k].time)
  {
    if n > 0 {
      EmittedMembers(ctx, events, n - 1, g);
    }
  }

  lemma EmittedMeans(ctx: GuessContext, events: seq<SniEvent>, k: nat)
    requires k < |events| && Emits(ctx, events, k)
    ensures events[k].time >= ctx.minimumTime
    ensures IsInterestingDomain(events[k].domain) && !Contains(events[k].domain, "google")
    ensures Volume(ctx, events[k]) > VISIT_VOLUME
  {
  }

  /** After a guess the visit stays active as long as no announcement comes
      more than 3 s after the last interesting one. */
  lemma {:induction false} ActiveUntilGap(ctx: GuessContext, events: seq<SniEvent>, i: nat, m: nat)
    requires i < m <= |events| && Emits(ctx, events, i)
    requires forall k :: i < k < m ==> !GapAt(ctx, events, k)
    ensures Run(ctx, events, m).active
  {
    if m > i + 1 {
      ActiveUntilGap(ctx, events, i, m - 1);
      assert !GapAt(ctx, events, m - 1);
    }
  }

  /** Between two guesses some announcement came more than 3 s after the last
      interesting one: one visit yields at most one guess. */
  lemma OneGuessPerVisit(ctx: GuessContext, events: seq<SniEvent>, i: nat, j: nat)
    requires i < j < |events| && Emits(ctx, events, i) && Emits(ctx, events, j)
    ensures exists k :: i < k <= j && GapAt(ctx, events, k)
  {
    if forall k :: i < k < j ==> !GapAt(ctx, events, k) {
      ActiveUntilGap(ctx, events, i, j);
      assert GapAt(ctx, events, j);
    }
  }

  /** The guesser's look-ahead sums the traffic of the windows it spans:
      all packets from the announcement's window up to four seconds on, not
      beyond the last window. */
  lemma VolumeIsWindowSum(packets: seq<PacketRecord>, minimumTime: int, e: SniEvent)
    requires |packets| > 0
    ensures var lo := BucketOf(e.time, GUESS_WINDOW);
      var hi := Min(lo + LOOKAHEAD, Context(packets, minimumTime).last);
      Volume(Context(packets, minimumTime), e) == if lo < hi then SumIn(PacketSamples(packets), lo, hi) else 0
  {
    var s := PacketSamples(packets);
    var lo := BucketOf(e.time, GUESS_WINDOW);
    var last := LastKey(s, GUESS_WINDOW);
    var i :| 0 <= i < |s| && BucketOf(s[i].time, GUESS_WINDOW) == last;
    AlignedNext(lo, GUESS_WINDOW);
    AlignedNext(lo + 1000, GUESS_WINDOW);
    AlignedNext(lo + 2000, GUESS_WINDOW);
    AlignedNext(lo + 3000, GUESS_WINDOW);
    ForwardVolumeIsWindowSum(s, lo, Min(lo + LOOKAHEAD, last), GUESS_WINDOW);
  }

  // ---------------------------------------------------------------------
  // The trace object

  class SearchTrace {
    const pcap: seq<Frame>
    var ips: set<string>
    var mapping: set<(string, string)>
    var minimumTime: int
    var packets: seq<PacketRecord>

    constructor (pcap: seq<Frame>)
      ensures this.pcap == pcap && ips == {} && mapping == {} && minimumTime == 0 && packets == []
    {
      this.pcap := pcap;
      ips, mapping, minimumTime, packets := {}, {}, 0, [];
    }

    method SetInterestingMinimumTime(minimumTime: int)
      modifies this
      ensures this.minimumTime == minimumTime
      ensures ips == old(ips) && mapping == old(mapping) && packets == old(packets)
    {
      this.minimumTime := minimumTime;
    }

    /** get_unrecognised_ips: the known addresses no pair names. */
    method GetUnrecognisedIps() returns (r: seq<string>)
      ensures forall a :: a in r <==> a in ips && forall p :: p in mapping ==> p.0 != a
      ensures forall x, y :: 0 <= x < y < |r| ==> r[x] != r[y]
    {
      r := [];
      var todo := ips;
      while todo != {}
        invariant todo <= ips
        invariant forall a :: a in r <==> a in ips - todo && forall p :: p in mapping ==> p.0 != a
        invariant forall x, y :: 0 <= x < y < |r| ==> r[x] != r[y]
        decreases |todo|
      {
        SomeAddress(todo);
        var ip :| ip in todo;
        var found := false;
        var pairs := mapping;
        while pairs != {}
          invariant pairs <= mapping
          invariant found <==> exists p :: p in mapping - pairs && p.0 == ip
          decreases |pairs|
        {
          SomePair(pairs);
          var p :| p in pairs;
          if ip == p.0 {
            found := true;
            break;
          }
          pairs := pairs - {p};
        }
        if !found {
          assert forall p :: p in mapping ==> p.0 != ip;
          assert ip !in r;
          r := r + [ip];
        }
        todo := todo - {ip};
      }
    }

    /** ip_to_domain: a name paired with the address, if any. */
    method IpToDomain(ip: string) returns (d: Option<string>)
      ensures d.Some? ==> (ip, d.value) in mapping
      ensures d.None? <==> forall p :: p in mapping ==> p.0 != ip
    {
      var pairs := mapping;
      while pairs != {}
        invariant pairs <= mapping
        invariant forall p :: p in mapping - pairs ==> p.0 != ip
        decreases |pairs|
      {
        SomePair(pairs);
        var p :| p in pairs;
        if p.0 == ip {
          return Some(p.1);
        }
        pairs := pairs - {p};
      }
      return None;
    }

    /** make_website_guess. */
    method MakeWebsiteGuess() returns (guesses: seq<(string, int)>)
      ensures guesses == WebsiteGuesses(packets, minimumTime)
    {
      guesses := GuessVisits(Context(packets, minimumTime), SniEvents(packets));
    }

    /** parse: handles every frame of the capture, records the handled ones,
        then filters the addresses and pairs. */
    method Parse()
      modifies this
      ensures packets == old(packets) + Records(pcap)
      ensures ips == FilteredIps(old(ips) + AllIps(pcap), old(mapping) + AllPairs(pcap), Bigger(pcap, minimumTime))
      ensures mapping == FilteredPairs(old(mapping) + AllPairs(pcap), Bigger(pcap, minimumTime))
      ensures minimumTime == old(minimumTime)
    {
      var i := 0;
      while i < |pcap|
        invariant 0 <= i <= |pcap| && minimumTime == old(minimumTime)
        invariant packets == old(packets) + Records(pcap[..i])
        invariant ips == old(ips) + AllIps(pcap[..i])
        invariant mapping == old(mapping) + AllPairs(pcap[..i])
      {
        var record := HandleIp(pcap[i]);
        if record.Some? {
          packets := packets + [record.value];
        }
        assert pcap[..i + 1][..i] == pcap[..i];
        i := i + 1;
      }
      assert pcap[..i] == pcap;
      FilterOut();
    }

    /** `__filter_out`. */
    method FilterOut()
      modifies this
      ensures ips == FilteredIps(old(ips), old(mapping), Bigger(pcap, minimumTime))
      ensures mapping == FilteredPairs(old(mapping), Bigger(pcap, minimumTime))
      ensures packets == old(packets) && minimumTime == old(minimumTime)
    {
      var bigger: set<string> := {};
      var i := 0;
      while i < |pcap|
        invariant 0 <= i <= |pcap| && bigger == Bigger(pcap[..i], minimumTime)
      {
        var f := pcap[i];
        if f.link.IpFrame? && f.link.ip.transport.Tcp? &&
           f.link.ip.totalLength >= MIN_INTERESTING_LENGTH && f.time > minimumTime {
          bigger := bigger + {f.link.ip.src};
          bigger := bigger + {f.link.ip.dst};
        }
        assert pcap[..i + 1][..i] == pcap[..i];
        i := i + 1;
      }
      assert pcap[..i] == pcap;
      ips := ips * bigger;
      var pairs := mapping;
      while pairs != {}
        invariant pairs <= mapping && mapping == old(mapping)
        invariant ips == (old(ips) * bigger) - (set p | p in mapping - pairs && !IsInterestingDomain(p.1) :: p.0)
        invariant packets == old(packets) && minimumTime == old(minimumTime)
        decreases |pairs|
      {
        SomePair(pairs);
        var p :| p in pairs;
        if !IsInterestingDomain(p.1) {
          ips := ips - {p.0};
        }
        pairs := pairs - {p};
      }
      mapping := set p | p in mapping && p.0 in bigger && IsInterestingDomain(p.1);
    }

    /** `__handle_ip` with its TCP and UDP branches. */
    method HandleIp(f: Frame) returns (record: Option<PacketRecord>)
      modifies this
      ensures ips == old(ips) + FrameEffect(f).ips
      ensures mapping == old(mapping) + FrameEffect(f).pairs
      ensures record == FrameEffect(f).record
      ensures packets == old(packets) && minimumTime == old(minimumTime)
    {
      if f.link.NonIpFrame? {
        return None;
      }
      var ip := f.link.ip;
      match ip.transport
      case Tcp(seg) =>
        ips := ips + {ip.src};
        ips := ips + {ip.dst};
        record := HandleTls(f, ip, seg);
      case Udp(d) =>
        record := HandleDns(f, ip, d);
      case OtherTransport(_) =>
        record := None;
    }

    /** `__handle_tls`: walks the records and their ClientHello extensions,
        pairing the destination with every server name; a handshake record
        that does not decode drops the packet (the pairs stay). */
    method HandleTls(f: Frame, ip: IpPacket, seg: TcpSegment) returns (record: Option<PacketRecord>)
      requires f.link == IpFrame(ip) && ip.transport == Tcp(seg)
      modifies this
      ensures mapping == old(mapping) + FrameEffect(f).pairs
      ensures record == FrameEffect(f).record
      ensures ips == old(ips) && packets == old(packets) && minimumTime == old(minimumTime)
    {
      if seg.payloadLength == 0 || seg.records.None? {
        return None;
      }
      var complete, kind, content := HandleRecords(ip.dst, seg.records.value);
      if !complete {
        return None;
      }
      record := Some(PacketRecord(ip.src, ip.dst, seg.sport, seg.dport, f.time, ip.payloadLength, IP_PROTO_TCP, kind, content));
    }

    /** The record loop of `__handle_tls`: false as soon as a handshake
        record does not decode, true once every record was handled; the
        packet's marking after the records handled. */
    method HandleRecords(dst: string, records: seq<TlsRecord>) returns (complete: bool, kind: PacketType, content: string)
      modifies this
      ensures complete == ScanRecords(records).complete
      ensures mapping == old(mapping) + PairSet(dst, ScanRecords(records).names)
      ensures (kind, content) == Marking(ScanRecords(records).names)
      ensures ips == old(ips) && packets == old(packets) && minimumTime == old(minimumTime)
    {
      kind, content := Data, "";
      ghost var m0 := mapping;
      var i := 0;
      while i < |records|
        invariant 0 <= i <= |records|
        invariant ScanRecords(records[..i]).complete
        invariant mapping == m0 + PairSet(dst, ScanRecords(records[..i]).names)
        invariant (kind, content) == Marking(ScanRecords(records[..i]).names)
        invariant ips == old(ips) && packets == old(packets) && minimumTime == old(minimumTime)
      {
        var rec := records[i];
        ScanRecordsSnoc(records, i);
        if rec.contentType == TLS_HANDSHAKE {
          if rec.handshake.None? {
            ScanStops(records, i + 1);
            return false, kind, content;
          }
          var hs := rec.handshake.value;
          if hs.hsType == TLS_CLIENT_HELLO && hs.extensions.Some? {
            ghost var before := ScanRecords(records[..i]).names;
            kind, content := HandleHello(dst, hs.extensions.value, kind, content, before);
            PairSetAppend(dst, before, HelloNames(hs));
            UnionAssoc(m0, PairSet(dst, before), PairSet(dst, HelloNames(hs)));
          } else {
            assert ScanRecords(records[..i]).names + [] == ScanRecords(records[..i]).names;
          }
        }
        i := i + 1;
      }
      assert records[..i] == records;
      return true, kind, content;
    }

    /** The extension loop of `__handle_tls` for one ClientHello: every
        server name is paired with the destination and marks the packet. */
    method HandleHello(dst: string, exts: seq<Extension>, kind0: PacketType, content0: string, ghost before: seq<string>)
      returns (kind: PacketType, content: string)
      requires (kind0, content0) == Marking(before)
      modifies this
      ensures mapping == old(mapping) + PairSet(dst, ServerNames(exts))
      ensures (kind, content) == Marking(before + ServerNames(exts))
      ensures ips == old(ips) && packets == old(packets) && minimumTime == old(minimumTime)
    {
      mapping, kind, content := AddServerNames(mapping, dst, exts, kind0, content0, before);
    }

    /** `__handle_dns`: answers of a port-53 datagram that decodes as DNS. */
    method HandleDns(f: Frame, ip: IpPacket, d: UdpDatagram) returns (record: Option<PacketRecord>)
      requires f.link == IpFrame(ip) && ip.transport == Udp(d)
      modifies this
      ensures mapping == old(mapping) + FrameEffect(f).pairs
      ensures record == FrameEffect(f).record
      ensures ips == old(ips) && packets == old(packets) && minimumTime == old(minimumTime)
    {
      if d.sport != DNS_PORT || d.answers.None? {
        return None;
      }
      mapping := AddAddressPairs(mapping, d.answers.value);
      record := Some(PacketRecord(ip.src, ip.dst, d.sport, d.dport, f.time, ip.payloadLength, IP_PROTO_UDP, Data, ""));
    }
  }

  /** The loop of HandleHello on the mapping `m`. */
  method AddServerNames(m: set<(string, string)>, dst: string, exts: seq<Extension>,
                        kind0: PacketType, content0: string, ghost before: seq<string>)
    returns (m': set<(string, string)>, kind: PacketType, content: string)
    requires (kind0, content0) == Marking(before)
    ensures m' == m + PairSet(dst, ServerNames(exts))
    ensures (kind, content) == Marking(before + ServerNames(exts))
  {
    m', kind, content := m, kind0, content0;
    ghost var names := [];
    var k := 0;
    while k < |exts|
      invariant 0 <= k <= |exts|
      invariant names == ServerNames(exts[..k])
      invariant m' == m + PairSet(dst, names)
      invariant (kind, content) == Marking(before + names)
    {
      var ext := exts[k];
      ServerNamesSnoc(exts, k);
      if ext.extType == SERVER_NAME_EXTENSION {
        var domainName := SniDomain(ext);
        PairSetSnoc(dst, names, domainName);
        UnionAssoc(m, PairSet(dst, names), {(dst, domainName)});
        MarkingSnoc(before, names, domainName);
        kind, content := ClientHelloSni, domainName;
        m' := m' + {(dst, domainName)};
        names := names + [domainName];
      } else {
        assert names + [] == names;
      }
      k := k + 1;
    }
    assert exts[..k] == exts;
  }

  /** The loop of HandleDns on the mapping `m`: every A or AAAA answer pairs
      its address with the lower-cased name. */
  method AddAddressPairs(m: set<(string, string)>, answers: seq<DnsAnswer>) returns (m': set<(string, string)>)
    ensures m' == m + PairsOf(AddressAnswers(answers))
  {
    m' := m;
    var i := 0;
    while i < |answers|
      invariant 0 <= i <= |answers|
      invariant m' == m + PairsOf(AddressAnswers(answers[..i]))
    {
      var a := answers[i];
      AddressPairsStep(m, answers, i);
      if a.rrType == DNS_A || a.rrType == DNS_AAAA {
        m' := m' + {(a.addr, Lower(a.name))};
      }
      i := i + 1;
    }
    assert answers[..i] == answers;
  }

  /** One answer of the loop of `__handle_dns`. */
  lemma AddressPairsStep(m: set<(string, string)>, answers: seq<DnsAnswer>, i: nat)
    requires i < |answers|
    ensures var a := answers[i];
      m + PairsOf(AddressAnswers(answers[..i + 1])) ==
        if a.rrType == DNS_A || a.rrType == DNS_AAAA then m + PairsOf(AddressAnswers(answers[..i])) + {(a.addr, Lower(a.name))}
        else m + PairsOf(AddressAnswers(answers[..i]))
  {
    var a := answers[i];
    assert answers[..i + 1][..i] == answers[..i];
    if a.rrType == DNS_A || a.rrType == DNS_AAAA {
      assert PairsOf(AddressAnswers(answers[..i + 1])) == PairsOf(AddressAnswers(answers[..i])) + {(a.addr, Lower(a.name))};
    } else {
      assert AddressAnswers(answers[..i + 1]) == AddressAnswers(answers[..i]) + [];
    }
  }

  /** The loop of make_website_guess over the announcements. */
  method GuessVisits(ctx: GuessContext, sni: seq<SniEvent>) returns (guesses: seq<(string, int)>)
    ensures guesses == Run(ctx, sni, |sni|).guesses
  {
    guesses := [];
    var prev: Option<int> := None;
    var visitActive := false;
    var k := 0;
    while k < |sni|
      invariant 0 <= k <= |sni|
      invariant Run(ctx, sni, k) == Visit(prev, visitActive, guesses)
    {
      prev, visitActive, guesses := GuessStep(ctx, prev, visitActive, guesses, sni[k]);
      k := k + 1;
    }
  }

  /** One pass of the loop of make_website_guess. */
  method GuessStep(ctx: GuessContext, prev: Option<int>, visitActive: bool, guesses: seq<(string, int)>, e: SniEvent)
    returns (prev': Option<int>, visitActive': bool, guesses': seq<(string, int)>)
    ensures Visit(prev', visitActive', guesses') == Step(ctx, Visit(prev, visitActive, guesses), e)
  {
    prev', visitActive', guesses' := prev, visitActive, guesses;
    if e.time < ctx.minimumTime {
      return;
    }
    var nextLen := NextLength(ctx.agg, e.time, ctx.last);
    var interesting := IsInterestingDomain(e.domain) && !Contains(e.domain, "google");
    var lastSniIsLongAgo := prev.None? || e.time - prev.value > VISIT_GAP;
    if lastSniIsLongAgo {
      visitActive' := false;
    }
    if !visitActive' && interesting && nextLen > VISIT_VOLUME {
      guesses' := guesses' + [(e.domain, e.time)];
      visitActive' := true;
    }
    if interesting {
      prev' := Some(e.time);
    }
  }

  /** The look-ahead loop of make_website_guess. */
  method NextLength(agg: map<int, int>, time: int, last: int) returns (nextLen: int)
    ensures nextLen == Volume(GuessContext(0, agg, last), SniEvent("", time))
  {
    var lo := BucketOf(time, GUESS_WINDOW);
    var hi := Min(lo + LOOKAHEAD, last);
    nextLen := 0;
    var j := lo;
    while j < hi
      invariant nextLen + ForwardVolume(agg, j, hi, GUESS_WINDOW) == ForwardVolume(agg, lo, hi, GUESS_WINDOW)
      decreases hi - j
    {
      if j in agg {
        nextLen := nextLen + agg[j];
      }
      j := j + GUESS_WINDOW;
    }
  }
}
