/** Loading a capture for keystroke detection (esqabe/kreep/util.py): each
    frame is routed by direction relative to Google's servers, only HTTPS
    traffic is kept, and outgoing TLS application-data records contribute
    one row per record with the record's length. Whether an address belongs
    to Google is decided by a reverse lookup (an oracle here) behind a cache. */
module KreepUtil {
  import opened Common
  import opened Packets

  datatype Direction = Incoming | Outgoing | Unknown

  /** A row of the keystroke frame: endpoints as "address:port", the frame
      time in ms, a length and the IP protocol number. */
  datatype Row = Row(src: string, dst: string, time: int, length: int, protocol: nat)

  function Endpoint(addr: string, port: nat): string
  {
    addr + ":" + NatToString(port)
  }

  /** The website name that switches on direction classification. */
  const GOOGLE := "google"

  /** The data lengths of the application-data records, in record order. */
  function AppDataLengths(records: seq<TlsRecord>): (r: seq<nat>)
    ensures |r| <= |records|
  {
    if |records| == 0 then []
    else
      var rest := AppDataLengths(records[1..]);
      if records[0].contentType == TLS_APPLICATION_DATA then [records[0].dataLength] + rest else rest
  }

  /** One row per length, all from the segment's source to its destination
      at the same time. */
  function LengthRows(ip: IpPacket, seg: TcpSegment, time: int, lens: seq<nat>): (r: seq<Row>)
    ensures |r| == |lens|
  {
    seq(|lens|, k requires 0 <= k < |lens| =>
      Row(Endpoint(ip.src, seg.sport), Endpoint(ip.dst, seg.dport), time, lens[k], Protocol(ip.transport)))
  }

  /** The rows `parse_tls` yields for a segment: none when the payload does
      not decode as TLS records, else one per application-data record. */
  function TlsRows(ip: IpPacket, seg: TcpSegment, time: int): seq<Row>
  {
    match seg.records
    case None => []
    case Some(records) => LengthRows(ip, seg, time, AppDataLengths(records))
  }

  /** parse_tls: walks the records and appends a row for each application-data one. */
  method ParseTls(ip: IpPacket, seg: TcpSegment, time: int) returns (results: seq<Row>)
    ensures seg.records.None? ==> results == []
    ensures seg.records.Some? ==>
      var lens := AppDataLengths(seg.records.value);
      |results| == |lens| &&
      forall k :: 0 <= k < |results| ==>
        results[k] == Row(Endpoint(ip.src, seg.sport), Endpoint(ip.dst, seg.dport), time, lens[k], Protocol(ip.transport))
    ensures results == TlsRows(ip, seg, time)
  {
    if seg.records.None? {
      return [];
    }
    var records := seg.records.value;
    results := [];
    var i := 0;
    while i < |records|
      invariant 0 <= i <= |records|
      invariant results == LengthRows(ip, seg, time, AppDataLengths(records[..i]))
    {
      var record := records[i];
      AppDataLengthsSnoc(records[..i], record);
      assert records[..i + 1] == records[..i] + [record];
      if record.contentType == TLS_APPLICATION_DATA {
        LengthRowsSnoc(ip, seg, time, AppDataLengths(records[..i]), record.dataLength);
        results := results + [Row(Endpoint(ip.src, seg.sport), Endpoint(ip.dst, seg.dport), time, record.dataLength, Protocol(ip.transport))];
      } else {
        assert AppDataLengths(records[..i]) + [] == AppDataLengths(records[..i]);
      }
      i := i + 1;
    }
    assert records[..i] == records;
  }

  lemma LengthRowsSnoc(ip: IpPacket, seg: TcpSegment, time: int, lens: seq<nat>, n: nat)
    ensures LengthRows(ip, seg, time, lens + [n]) ==
      LengthRows(ip, seg, time, lens) + [Row(Endpoint(ip.src, seg.sport), Endpoint(ip.dst, seg.dport), time, n, Protocol(ip.transport))]
  {
  }

  lemma {:induction false} AppDataLengthsSnoc(records: seq<TlsRecord>, rec: TlsRecord)
    ensures AppDataLengths(records + [rec]) ==
      AppDataLengths(records) + (if rec.contentType == TLS_APPLICATION_DATA then [rec.dataLength] else [])
    decreases |records|
  {
    if |records| > 0 {
      assert (records + [rec])[1..] == records[1..] + [rec];
      AppDataLengthsSnoc(records[1..], rec);
    }
  }

  /** parse_tcp: an empty payload yields nothing; an incoming segment from
      port 443 yields one row with the payload length; otherwise a segment
      to port 443 is parsed as TLS, and anything else yields nothing. */
  function ParseTcp(ip: IpPacket, seg: TcpSegment, time: int, dir: Direction): seq<Row>
  {
    if seg.payloadLength > 0 then
      if dir == Incoming && seg.sport == HTTPS_PORT then
        [Row(Endpoint(ip.src, seg.sport), Endpoint(ip.dst, seg.dport), time, seg.payloadLength, Protocol(ip.transport))]
      else if seg.dport == HTTPS_PORT then TlsRows(ip, seg, time)
      else []
    else []
  }

  /** What parse_tcp yields: nothing for an empty payload or a segment that
      touches port 443 in neither allowed way; one row carrying the payload
      length for an incoming segment from port 443; otherwise, for a segment
      to port 443, the TLS rows. Every row runs from the segment's source to
      its destination at the frame's time. */
  lemma ParseTcpMeans(ip: IpPacket, seg: TcpSegment, time: int, dir: Direction)
    ensures seg.payloadLength == 0 ==> ParseTcp(ip, seg, time, dir) == []
    ensures ParseTcp(ip, seg, time, dir) != [] ==>
      seg.dport == HTTPS_PORT || (dir == Incoming && seg.sport == HTTPS_PORT)
    ensures seg.payloadLength > 0 && dir == Incoming && seg.sport == HTTPS_PORT ==>
      var rows := ParseTcp(ip, seg, time, dir);
      |rows| == 1 && rows[0].length == seg.payloadLength
    ensures seg.payloadLength > 0 && !(dir == Incoming && seg.sport == HTTPS_PORT) && seg.dport == HTTPS_PORT ==>
      ParseTcp(ip, seg, time, dir) == TlsRows(ip, seg, time)
    ensures forall row :: row in ParseTcp(ip, seg, time, dir) ==>
      row.src == Endpoint(ip.src, seg.sport) && row.dst == Endpoint(ip.dst, seg.dport) && row.time == time
  {
  }

  /** The direction `parse_ip` gives a TCP packet, for a given Google test:
      for any website but "google" every TCP packet is parsed as UNKNOWN;
      for "google" a Google destination makes it OUTGOING (checked first), a
      Google source INCOMING, and anything else is not parsed (`None`). */
  function Classify(ip: IpPacket, website: Option<string>, isGoogle: string -> bool): Option<Direction>
  {
    if website != Some(GOOGLE) then Some(Unknown)
    else if isGoogle(ip.dst) then Some(Outgoing)
    else if isGoogle(ip.src) then Some(Incoming)
    else None
  }

  /** parse_ip: rows and direction of one IP packet. */
  function ParseIp(ip: IpPacket, time: int, website: Option<string>, isGoogle: string -> bool): (seq<Row>, Direction)
  {
    if ip.transport.Tcp? then
      match Classify(ip, website, isGoogle)
      case Some(dir) => (ParseTcp(ip, ip.transport.segment, time, dir), dir)
      case None => ([], Unknown)
    else ([], Unknown)
  }

  /** parse_eth: non-IP frames yield nothing. */
  function ParseEth(frame: Frame, website: Option<string>, isGoogle: string -> bool): (seq<Row>, Direction)
  {
    match frame.link
    case IpFrame(ip) => ParseIp(ip, frame.time, website, isGoogle)
    case NonIpFrame => ([], Unknown)
  }

  /** load_pcap's result: rows of INCOMING frames go to the second list, all
      others (OUTGOING and UNKNOWN) to the first, both in frame order. */
  function SplitRows(frames: seq<Frame>, website: Option<string>, isGoogle: string -> bool): (seq<Row>, seq<Row>)
  {
    if |frames| == 0 then ([], [])
    else
      Route(SplitRows(frames[..|frames| - 1], website, isGoogle), ParseEth(frames[|frames| - 1], website, isGoogle))
  }

  /** Appends one frame's rows to the list its direction selects. */
  function Route(lists: (seq<Row>, seq<Row>), parsed: (seq<Row>, Direction)): (seq<Row>, seq<Row>)
  {
    if parsed.1 == Incoming then (lists.0, lists.1 + parsed.0) else (lists.0 + parsed.0, lists.1)
  }

  /** A reverse-lookup answer names a Google server. */
  predicate NamesGoogle(host: Option<string>)
  {
    host.Some? && EndsWith(host.value, "1e100.net")
  }

  /** The answer `is_from_google` gives for `ip` with cache `known`: the
      cached value if there is one, else what the reverse lookup says (a
      lookup error counts as "not Google"). */
  function CachedAnswer(known: map<string, bool>, reverseDns: string -> Option<string>, ip: string): bool
  {
    if ip in known then known[ip] else NamesGoogle(reverseDns(ip))
  }

  /** The process-wide `IS_GOOGLE` cache, as an object with caller-chosen lifetime. */
  class GoogleCache {
    var known: map<string, bool>

    constructor ()
      ensures known == map[]
    {
      known := map[];
    }

    /** is_from_google: a cached address answers without a lookup; a miss
        looks up, stores the answer (False on a lookup error) and returns it.
        Entries are never removed or overwritten, so the answer the cache
        gives for every address is the same before and after. */
    method IsFromGoogle(ip: string, reverseDns: string -> Option<string>) returns (b: bool)
      modifies this
      ensures b == CachedAnswer(old(known), reverseDns, ip)
      ensures ip in old(known) ==> known == old(known)
      ensures ip !in old(known) ==> known == old(known)[ip := NamesGoogle(reverseDns(ip))]
      ensures forall a :: a in old(known) ==> a in known && known[a] == old(known)[a]
      ensures forall a :: CachedAnswer(known, reverseDns, a) == CachedAnswer(old(known), reverseDns, a)
    {
      if ip in known {
        return known[ip];
      }
      var host := reverseDns(ip);
      b := NamesGoogle(host);
      known := known[ip := b];
    }
  }

  /** parse_eth with the cache consulted: destination first, the source only
      when the destination is not Google, and neither for other websites. */
  method ParseFrame(frame: Frame, website: Option<string>, cache: GoogleCache, reverseDns: string -> Option<string>)
    returns (rows: seq<Row>, dir: Direction)
    modifies cache
    ensures (rows, dir) == ParseEth(frame, website, a => CachedAnswer(old(cache.known), reverseDns, a))
    ensures forall a :: CachedAnswer(cache.known, reverseDns, a) == CachedAnswer(old(cache.known), reverseDns, a)
    ensures old(cache.known).Keys <= cache.known.Keys
    ensures website != Some(GOOGLE) ==> cache.known == old(cache.known)
  {
    ghost var isGoogle := a => CachedAnswer(old(cache.known), reverseDns, a);
    if frame.link.NonIpFrame? {
      return [], Unknown;
    }
    var ip := frame.link.ip;
    if !ip.transport.Tcp? {
      return [], Unknown;
    }
    dir := Unknown;
    var canParse := website != Some(GOOGLE);
    if website == Some(GOOGLE) {
      var dstGoogle := cache.IsFromGoogle(ip.dst, reverseDns);
      if dstGoogle {
        canParse, dir := true, Outgoing;
      } else {
        var srcGoogle := cache.IsFromGoogle(ip.src, reverseDns);
        if srcGoogle {
          canParse, dir := true, Incoming;
        }
      }
    }
    if canParse {
      rows := ParseTcpRows(ip, ip.transport.segment, frame.time, dir);
    } else {
      rows, dir := [], Unknown;
    }
  }

  /** parse_tcp with its TLS branch run by `ParseTls`. */
  method ParseTcpRows(ip: IpPacket, seg: TcpSegment, time: int, dir: Direction) returns (rows: seq<Row>)
    ensures rows == ParseTcp(ip, seg, time, dir)
  {
    rows := [];
    if seg.payloadLength > 0 {
      if dir == Incoming && seg.sport == HTTPS_PORT {
        rows := [Row(Endpoint(ip.src, seg.sport), Endpoint(ip.dst, seg.dport), time, seg.payloadLength, Protocol(ip.transport))];
      } else if seg.dport == HTTPS_PORT {
        rows := ParseTls(ip, seg, time);
      }
    }
  }

  /** load_pcap: parses every frame and extends the incoming or the outgoing
      list with its rows. */
  method LoadPcap(frames: seq<Frame>, website: Option<string>, cache: GoogleCache, reverseDns: string -> Option<string>)
    returns (rowsOut: seq<Row>, rowsIn: seq<Row>)
    modifies cache
    ensures (rowsOut, rowsIn) == SplitRows(frames, website, a => CachedAnswer(old(cache.known), reverseDns, a))
    ensures forall a :: CachedAnswer(cache.known, reverseDns, a) == CachedAnswer(old(cache.known), reverseDns, a)
    ensures old(cache.known).Keys <= cache.known.Keys
  {
    ghost var isGoogle := a => CachedAnswer(old(cache.known), reverseDns, a);
    rowsOut, rowsIn := [], [];
    var i := 0;
    while i < |frames|
      invariant 0 <= i <= |frames|
      invariant (rowsOut, rowsIn) == SplitRows(frames[..i], website, isGoogle)
      invariant forall a :: CachedAnswer(cache.known, reverseDns, a) == CachedAnswer(old(cache.known), reverseDns, a)
      invariant old(cache.known).Keys <= cache.known.Keys
    {
      ghost var before := cache.known;
      var row, dir := ParseFrame(frames[i], website, cache, reverseDns);
      ParseEthCongruent(frames[i], website, a => CachedAnswer(before, reverseDns, a), isGoogle);
      if dir == Incoming {
        rowsIn := rowsIn + row;
      } else {
        rowsOut := rowsOut + row;
      }
      assert frames[..i + 1][..i] == frames[..i];
      i := i + 1;
    }
    assert frames[..i] == frames;
  }

  /** Only the "google" website classifies directions: for any other the
      incoming list stays empty and every row lands in the outgoing list. */
  lemma {:induction false} OtherWebsitesHaveNoIncoming(frames: seq<Frame>, website: Option<string>, isGoogle: string -> bool)
    requires website != Some(GOOGLE)
    ensures SplitRows(frames, website, isGoogle).1 == []
  {
    if |frames| > 0 {
      OtherWebsitesHaveNoIncoming(frames[..|frames| - 1], website, isGoogle);
    }
  }

  /** Loading two captures one after the other gives the concatenated lists:
      the split keeps frame order in both lists. */
  lemma {:induction false} SplitRowsAppend(f1: seq<Frame>, f2: seq<Frame>, website: Option<string>, isGoogle: string -> bool)
    ensures SplitRows(f1 + f2, website, isGoogle) ==
      (SplitRows(f1, website, isGoogle).0 + SplitRows(f2, website, isGoogle).0,
       SplitRows(f1, website, isGoogle).1 + SplitRows(f2, website, isGoogle).1)
    decreases |f2|
  {
    var r1 := SplitRows(f1, website, isGoogle);
    if |f2| == 0 {
      assert f1 + f2 == f1;
      assert r1.0 + [] == r1.0 && r1.1 + [] == r1.1;
    } else {
      var f2' := f2[..|f2| - 1];
      var last := f2[|f2| - 1];
      assert (f1 + f2)[..|f1 + f2| - 1] == f1 + f2';
      assert (f1 + f2)[|f1 + f2| - 1] == last;
      SplitRowsAppend(f1, f2', website, isGoogle);
      RouteAppend(r1, SplitRows(f2', website, isGoogle), ParseEth(last, website, isGoogle));
    }
  }

  /** Routing one frame after two concatenated splits only touches the second. */
  lemma RouteAppend(x: (seq<Row>, seq<Row>), y: (seq<Row>, seq<Row>), e: (seq<Row>, Direction))
    ensures Route((x.0 + y.0, x.1 + y.1), e) == (x.0 + Route(y, e).0, x.1 + Route(y, e).1)
  {
    assert x.0 + y.0 + e.0 == x.0 + (y.0 + e.0);
    assert x.1 + y.1 + e.0 == x.1 + (y.1 + e.0);
  }

  /** Parsing a frame depends on the Google test only through its answers. */
  lemma ParseEthCongruent(frame: Frame, website: Option<string>, f: string -> bool, g: string -> bool)
    requires forall a :: f(a) == g(a)
    ensures ParseEth(frame, website, f) == ParseEth(frame, website, g)
  {
    if frame.link.IpFrame? {
      assert Classify(frame.link.ip, website, f) == Classify(frame.link.ip, website, g);
    }
  }

  /** Every row of an incoming frame comes from a Google source, and every
      row of an outgoing frame goes to a Google destination. */
  lemma DirectionMeansGoogle(frame: Frame, website: Option<string>, isGoogle: string -> bool)
    requires frame.link.IpFrame?
    ensures ParseEth(frame, website, isGoogle).1 == Incoming ==>
      website == Some(GOOGLE) && !isGoogle(frame.link.ip.dst) && isGoogle(frame.link.ip.src)
    ensures ParseEth(frame, website, isGoogle).1 == Outgoing ==>
      website == Some(GOOGLE) && isGoogle(frame.link.ip.dst)
  {
  }

  /** Conversely, for "google" a Google destination makes a TCP packet
      OUTGOING whatever its source, otherwise a Google source makes it
      INCOMING, and otherwise it yields nothing; for any other website it is
      UNKNOWN. The rows are those `parse_tcp` gives for that direction. */
  lemma GoogleGivesDirection(frame: Frame, website: Option<string>, isGoogle: string -> bool)
    requires frame.link.IpFrame? && frame.link.ip.transport.Tcp?
    ensures var ip, r := frame.link.ip, ParseEth(frame, website, isGoogle);
      website == Some(GOOGLE) && isGoogle(ip.dst) ==>
        r == (ParseTcp(ip, ip.transport.segment, frame.time, Outgoing), Outgoing)
    ensures var ip, r := frame.link.ip, ParseEth(frame, website, isGoogle);
      website == Some(GOOGLE) && !isGoogle(ip.dst) && isGoogle(ip.src) ==>
        r == (ParseTcp(ip, ip.transport.segment, frame.time, Incoming), Incoming)
    ensures var ip := frame.link.ip;
      website == Some(GOOGLE) && !isGoogle(ip.dst) && !isGoogle(ip.src) ==>
        ParseEth(frame, website, isGoogle) == ([], Unknown)
    ensures var ip, r := frame.link.ip, ParseEth(frame, website, isGoogle);
      website != Some(GOOGLE) ==> r == (ParseTcp(ip, ip.transport.segment, frame.time, Unknown), Unknown)
  {
  }

  /** A packet of any transport but TCP, and any non-IP frame, yields no rows. */
  lemma NonTcpYieldsNothing(frame: Frame, website: Option<string>, isGoogle: string -> bool)
    requires frame.link.NonIpFrame? || !frame.link.ip.transport.Tcp?
    ensures ParseEth(frame, website, isGoogle) == ([], Unknown)
  {
  }
}
