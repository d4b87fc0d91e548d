/** Decoded capture frames, as the packet-decoding library hands them over.
    The decoding itself (pcapng framing, Ethernet, IP, TCP, UDP, TLS record
    and handshake layouts, DNS messages) is not part of this model: a frame
    arrives here already split into the fields the traces read, and every
    place where the library can raise a decode error is an `Option` that is
    `None` when it does. */
module Packets {
  import opened Common

  /** TLS content types and handshake types (section 6.2.1 and 7.4 of RFC 5246). */
  const TLS_HANDSHAKE := 22
  const TLS_APPLICATION_DATA := 23
  const TLS_CLIENT_HELLO := 1
  /** The server_name extension type (section 3 of RFC 6066). */
  const SERVER_NAME_EXTENSION := 0
  /** Resource record types of DNS answers: A and AAAA. */
  const DNS_A := 1
  const DNS_AAAA := 28
  const DNS_PORT := 53
  const HTTPS_PORT := 443
  const IP_PROTO_TCP := 6
  const IP_PROTO_UDP := 17

  /** One ClientHello extension: its type and its raw data, read as ASCII. */
  datatype Extension = Extension(extType: nat, data: string)

  /** A decoded handshake message; `extensions` is `None` when the message
      has no extension list. */
  datatype Handshake = Handshake(hsType: nat, extensions: Option<seq<Extension>>)

  /** A TLS record: its content type, the length of its data, and what
      decoding that data as a handshake message yields (`None`: it fails). */
  datatype TlsRecord = TlsRecord(contentType: nat, dataLength: nat, handshake: Option<Handshake>)

  /** A TCP segment: ports, payload length, and the TLS records the payload
      decodes to (`None`: the payload does not decode as TLS records). */
  datatype TcpSegment = TcpSegment(sport: nat, dport: nat, payloadLength: nat, records: Option<seq<TlsRecord>>)

  /** One DNS answer: its record type, the rendered address and the name. */
  datatype DnsAnswer = DnsAnswer(rrType: nat, addr: string, name: string)

  /** A UDP datagram: ports and the DNS answers its payload decodes to
      (`None`: it does not decode as a DNS message). */
  datatype UdpDatagram = UdpDatagram(sport: nat, dport: nat, answers: Option<seq<DnsAnswer>>)

  /** The IP payload by protocol number: 6 is TCP, 17 is UDP, and
      `OtherTransport` carries any other number, whose payload is not
      decoded. A protocol test reads the constructor. */
  datatype Transport = Tcp(segment: TcpSegment) | Udp(datagram: UdpDatagram) | OtherTransport(proto: nat)

  /** An IP packet with rendered addresses, its total length (`len(ip)`),
      the length of its payload (`len(ip.data)`) and its transport. */
  datatype IpPacket = IpPacket(src: string, dst: string, totalLength: nat, payloadLength: nat, transport: Transport)

  /** An Ethernet frame carries IPv4/IPv6 or something else. */
  datatype Link = IpFrame(ip: IpPacket) | NonIpFrame

  /** A captured frame with its time in milliseconds. */
  datatype Frame = Frame(time: int, link: Link)

  /** The IP protocol number (`ip.p`). */
  function Protocol(t: Transport): nat
  {
    match t
    case Tcp(_) => IP_PROTO_TCP
    case Udp(_) => IP_PROTO_UDP
    case OtherTransport(p) => p
  }

  /** The host name in a server_name extension: the data after the two-byte
      list length, the name type and the two-byte name length, lower-cased. */
  function SniDomain(e: Extension): string
  {
    Lower(DropPrefix(e.data, 5))
  }

  /** The host names of the server_name extensions of one extension list, in order. */
  function ServerNames(exts: seq<Extension>): (r: seq<string>)
    ensures |r| <= |exts|
    ensures forall d :: d in r <==> exists e :: e in exts && e.extType == SERVER_NAME_EXTENSION && d == SniDomain(e)
  {
    if |exts| == 0 then []
    else
      var init, e := exts[..|exts| - 1], exts[|exts| - 1];
      assert forall x :: x in exts <==> x == e || x in init by {
        assert exts == init + [e];
      }
      ServerNames(init) + (if e.extType == SERVER_NAME_EXTENSION then [SniDomain(e)] else [])
  }

  /** The server names a handshake message announces: those of a ClientHello
      that carries an extension list, none otherwise. */
  function HelloNames(hs: Handshake): (r: seq<string>)
  {
    if hs.hsType == TLS_CLIENT_HELLO && hs.extensions.Some? then ServerNames(hs.extensions.value) else []
  }

  /** What the traces read from a frame's TLS records: whether every
      handshake record decoded (`complete`) and the server names met, in
      order, up to the first handshake record that did not decode. */
  datatype HelloScan = HelloScan(complete: bool, names: seq<string>)

  function ScanRecords(records: seq<TlsRecord>): (r: HelloScan)
    ensures forall d :: d in r.names ==> exists rec ::
      rec in records && rec.contentType == TLS_HANDSHAKE && rec.handshake.Some? && d in HelloNames(rec.handshake.value)
    ensures r.complete <==> forall rec :: rec in records && rec.contentType == TLS_HANDSHAKE ==> rec.handshake.Some?
  {
    if |records| == 0 then HelloScan(true, [])
    else
      var init, rec := records[..|records| - 1], records[|records| - 1];
      var prev := ScanRecords(init);
      assert forall x :: x in records <==> x == rec || x in init by {
        assert records == init + [rec];
      }
      if !prev.complete || rec.contentType != TLS_HANDSHAKE then prev
      else match rec.handshake
        case None => HelloScan(false, prev.names)
        case Some(hs) => HelloScan(true, prev.names + HelloNames(hs))
  }

  /** The (address, lower-cased name) pairs of the A and AAAA answers, in order. */
  function AddressAnswers(answers: seq<DnsAnswer>): (r: seq<(string, string)>)
    ensures |r| <= |answers|
  {
    if |answers| == 0 then []
    else
      var init, a := answers[..|answers| - 1], answers[|answers| - 1];
      AddressAnswers(init) + (if a.rrType == DNS_A || a.rrType == DNS_AAAA then [(a.addr, Lower(a.name))] else [])
  }

  /** The pairs are exactly those of the A and AAAA answers. */
  lemma {:induction false} AddressAnswersMembers(answers: seq<DnsAnswer>)
    ensures forall p :: p in AddressAnswers(answers) <==>
      exists a :: a in answers && (a.rrType == DNS_A || a.rrType == DNS_AAAA) && p == (a.addr, Lower(a.name))
  {
    if |answers| > 0 {
      var init, a := answers[..|answers| - 1], answers[|answers| - 1];
      AddressAnswersMembers(init);
      assert forall x :: x in answers <==> x == a || x in init by {
        assert answers == init + [a];
      }
    }
  }

  /** The set of pairs of a list. */
  function PairsOf(s: seq<(string, string)>): set<(string, string)>
  {
    set p | p in s
  }

  function PairSet(addr: string, names: seq<string>): (r: set<(string, string)>)
    ensures forall p :: p in r <==> p.0 == addr && p.1 in names
  {
    set n | n in names :: (addr, n)
  }

  lemma SomeAddress(S: set<string>)
    requires S != {}
    ensures exists a :: a in S
  {
    if forall a :: a !in S {
      assert false;
    }
  }

  lemma SomePair(S: set<(string, string)>)
    requires S != {}
    ensures exists p :: p in S
  {
    if forall p :: p !in S {
      assert false;
    }
  }

  lemma ServerNamesSnoc(exts: seq<Extension>, k: nat)
    requires k < |exts|
    ensures ServerNames(exts[..k + 1]) == ServerNames(exts[..k]) +
      (if exts[k].extType == SERVER_NAME_EXTENSION then [SniDomain(exts[k])] else [])
  {
    assert exts[..k + 1][..k] == exts[..k];
  }

  lemma ScanRecordsSnoc(records: seq<TlsRecord>, i: nat)
    requires i < |records|
    ensures var prev, rec := ScanRecords(records[..i]), records[i];
      ScanRecords(records[..i + 1]) ==
        if !prev.complete || rec.contentType != TLS_HANDSHAKE then prev
        else if rec.handshake.None? then HelloScan(false, prev.names)
        else HelloScan(true, prev.names + HelloNames(rec.handshake.value))
  {
    assert records[..i + 1][..i] == records[..i];
  }

  lemma PairSetSnoc(addr: string, names: seq<string>, n: string)
    ensures PairSet(addr, names + [n]) == PairSet(addr, names) + {(addr, n)}
  {
  }

  lemma PairSetAppend(addr: string, names: seq<string>, more: seq<string>)
    ensures PairSet(addr, names + more) == PairSet(addr, names) + PairSet(addr, more)
  {
  }

  lemma UnionAssoc<T>(a: set<T>, b: set<T>, c: set<T>)
    ensures a + b + c == a + (b + c)
  {
  }

  /** The names read from a prefix of the records start the names read from
      all of them: reading more records only appends names. */
  lemma {:induction false} ScanNamesGrow(records: seq<TlsRecord>, j: nat)
    requires j <= |records|
    ensures var a, b := ScanRecords(records[..j]).names, ScanRecords(records).names;
      |a| <= |b| && b[..|a|] == a
    decreases |records| - j
  {
    if j < |records| {
      ScanRecordsSnoc(records, j);
      ScanNamesGrow(records, j + 1);
      var a, a1, b := ScanRecords(records[..j]).names, ScanRecords(records[..j + 1]).names, ScanRecords(records).names;
      assert a1[..|a|] == a;
      assert b[..|a|] == b[..|a1|][..|a|];
    } else {
      assert records[..j] == records;
    }
  }

  /** Every server name of a decoded handshake record met before any
      handshake record failed to decode is read. */
  lemma {:induction false} HelloNamesScanned(records: seq<TlsRecord>, i: nat)
    requires i < |records| && ScanRecords(records[..i]).complete
    requires records[i].contentType == TLS_HANDSHAKE && records[i].handshake.Some?
    ensures forall n :: n in HelloNames(records[i].handshake.value) ==> n in ScanRecords(records).names
  {
    ScanRecordsSnoc(records, i);
    ScanNamesGrow(records, i + 1);
    var a, b := ScanRecords(records[..i + 1]).names, ScanRecords(records).names;
    forall n | n in HelloNames(records[i].handshake.value)
      ensures n in b
    {
      assert n in a;
      assert n in b[..|a|];
    }
  }

  /** Once a handshake record fails to decode, later records change nothing. */
  lemma {:induction false} ScanStops(records: seq<TlsRecord>, i: nat)
    requires i <= |records| && !ScanRecords(records[..i]).complete
    ensures ScanRecords(records) == ScanRecords(records[..i])
    decreases |records| - i
  {
    if i < |records| {
      ScanStops(records, i + 1);
      assert records[..i + 1][..i] == records[..i];
    } else {
      assert records[..i] == records;
    }
  }
}
