# ESQABE core, modelled in Dafny

ESQABE (Encrypted Search Query Analysis By Eavesdropping) works from a
packet capture of a browser session. It guesses what a user searched for
and which website they visited next. This project models the parts of it
that decide what comes out:

- **Keystroke detection** (`esqabe/kreep/`). The capture becomes rows of
  TLS application-data lengths (`load_pcap`). Per flow, a dynamic
  programme finds the longest run of lengths that a search engine's
  autocomplete rule accepts (`longest_dfa_sequence`, `google_rule`,
  `baidu_rule`). The longest flow wins (`detect_keystrokes`,
  `detect_website_keystrokes`). Keystrokes next to a traffic spike are
  trimmed, and the token numbers become word lengths (`mini_kreep`).
- **The search pattern** (`generate_pattern`). This is the regular
  expression built from the estimated word lengths.
- **The search trace** (`SearchTrace`). It handles each frame: a TLS
  ClientHello pairs its server name with the destination address, and a
  DNS answer pairs an address with a host name. It filters out
  infrastructure hosts and small flows. It guesses the visited websites
  from server-name announcements followed by heavy traffic.
- **The Wikipedia trace and comparer** (`WikiTrace`,
  `WikiFingerprintComparer`). These keep the addresses that serve a
  Wikipedia host, the packets exchanged with them, and the histogram of
  (direction, length) that a page fingerprint consists of. They also
  select the packets of the first page load after a search.
- **Utilities** (`esqabe/utils.py`). These are the MAC-address rendering,
  the Wikipedia host test, and the two `Counter` operations (case merging
  and threshold).
- **The Weka call** (`wekaAPI.execute`). This is its command line and the
  reading of the CSV predictions Weka prints.

## Model structure

Decoded frames are values (`Packets.Frame`): what the packet library
would yield for each frame, including `None` where decoding raises.
Times are whole milliseconds. Lists are `seq`, sets are `set`, and
dictionaries and counters are `map`. Classes whose fields the source
updates in place are Dafny classes: `Search.SearchTrace`,
`WikiTraces.WikiTrace`, `WikiComparer.WikiFingerprintComparer`,
`Utils.Counter` and `KreepUtil.GoogleCache`. Loops in the source are
methods with loop invariants. Each method is proved equal to a
specification function, and the properties are proved as lemmas about
that function.

When two accepted chains are equally long, `longest_dfa_sequence` keeps
the later one: the test at esqabe/kreep/detection.py:91 is
`len(L[i]) < len(L[j]) + 1` (see `Detection.ScanKeepsLastLongest`).

## Model

| member | source | states |
|---|---|---|
| Common.Lower | esqabe/search_trace.py:181 | `str.lower` keeps the length, leaves no upper-case ASCII letter and keeps every other character in place |
| Common.LowerIdempotent | esqabe/search_trace.py:181 | lower-casing an already lower-cased name changes nothing |
| Common.Split | esqabe/fingerprinting/classifiers/wekaAPI.py:34-36 | `split(sep)` yields at least one piece, and no piece contains the separator |
| Common.JoinSplit | esqabe/fingerprinting/classifiers/wekaAPI.py:34-36 | joining the pieces of a split with the separator gives back the string |
| Common.SplitJoin | esqabe/fingerprinting/classifiers/wekaAPI.py:24 | splitting a join of separator-free pieces gives back exactly those pieces |
| Common.IntToString | esqabe/esqabe.py:93 | `str(n)` is non-empty, holds only digits and a sign, and starts with '-' exactly for negatives |
| Common.NatToStringInjective | esqabe/esqabe.py:93 | distinct naturals render differently |
| Common.JoinCount | esqabe/esqabe.py:89-93 | joining k separator-free parts puts exactly k-1 separators in the result |
| Packets.ServerNames | esqabe/search_trace.py:179-184 | the names taken are exactly those of the server_name (type 0) extensions, at most one per extension |
| Packets.ScanRecords | esqabe/search_trace.py:171-187 | every name found comes from a decoded handshake record; the scan completes iff every handshake record decodes |
| Packets.ScanStops | esqabe/search_trace.py:173-176 | after a handshake record fails to decode, later records change nothing |
| Packets.ScanNamesGrow | esqabe/search_trace.py:171-185 | reading more records only appends names: the names of a prefix start the names of the whole |
| Packets.HelloNamesScanned | esqabe/search_trace.py:171-185 | every server name of a decoded handshake record met before the first undecodable one is read |
| Packets.AddressAnswers | esqabe/search_trace.py:213-217 | one pair at most per DNS answer |
| Packets.AddressAnswersMembers | esqabe/search_trace.py:213-217 | a pair is taken iff an A or AAAA answer gives its address and its lower-cased name |
| Buckets.BucketOf | esqabe/search_trace.py:90 | `t // w * w` is the multiple of w with t in [k, k+w) |
| Buckets.BucketOfAligned | esqabe/search_trace.py:90 | an aligned k with t in [k, k+w) is t's bucket |
| Buckets.Aggregate | esqabe/search_trace.py:77 | the grouped sums have exactly the occupied buckets as keys, each holding its bucket's total length |
| Buckets.UnoccupiedBucketIsEmpty | esqabe/search_trace.py:92 | a bucket missing from the grouping holds no traffic |
| Buckets.BucketSumIsWindowSum | esqabe/search_trace.py:77 | a bucket's sum is the total length of the samples in its time window |
| Buckets.SumInSplit | esqabe/search_trace.py:91-93 | a window sum splits at any midpoint |
| Buckets.ForwardVolumeIsWindowSum | esqabe/search_trace.py:91-93 | summing the grouped buckets from lo up to hi gives the traffic in [lo, hi), or 0 for an empty range |
| Utils.HexByte | esqabe/utils.py:31 | `'%02x'` gives two characters and no colon |
| Utils.MacAddrLength | esqabe/utils.py:27-31 | a non-empty address of n bytes renders as 3n - 1 characters: n two-digit groups and n - 1 colons |
| Utils.HexByteRoundTrip | esqabe/utils.py:31 | a rendered byte parses back to itself |
| Utils.ParseBytesHex | esqabe/utils.py:31 | the rendered bytes parse back to the address |
| Utils.MacAddrRoundTrip | esqabe/utils.py:27-31 | `mac_addr` of a non-empty address is injective: splitting at ':' and parsing gives back the bytes |
| Utils.WikiNameInside | esqabe/utils.py:45-46 | a name containing a Wikipedia host name is itself from Wikipedia |
| Utils.LanguageHostIsWiki | esqabe/utils.py:24 | every `<lang>.wikipedia.org` host is from Wikipedia |
| Utils.AboveThreshold | esqabe/utils.py:66-72 | the kept words are exactly those counted above the threshold, with their counts unchanged |
| Utils.ThresholdIdempotent | esqabe/utils.py:66-72 | applying the threshold twice changes nothing more |
| Utils.ThresholdCompose | esqabe/utils.py:66-72 | a low threshold followed by a higher one equals the higher one alone |
| Utils.Counter.Threshold | esqabe/utils.py:66-72 | the loop over `most_common()` deletes exactly the words at or below the threshold |
| Utils.Absorb | esqabe/utils.py:54-61 | the inner loop never lengthens the remaining list |
| Utils.AbsorbMeans | esqabe/utils.py:54-61 | the inner loop drops every case variant from the list and the counter, and adds their counts to the current word; other words keep their counts |
| Utils.Counter.AbsorbCase | esqabe/utils.py:52-61 | one outer pass changes the counter and the list exactly as `Absorb` says |
| Utils.AbsorbStep | esqabe/utils.py:56-61 | one backward step deletes and merges a variant, or leaves the state alone |
| Utils.Counter.UnifyCase | esqabe/utils.py:49-63 | `unify_case_in_counter` leaves the counter equal to `Unify` of the old counter in `most_common()` order |
| Utils.UnifyShape | esqabe/utils.py:49-63 | the result keeps untouched words, and keeps exactly one word per case class holding the class total |
| Utils.UnifyCaseCollapses | esqabe/utils.py:49-63 | after merging, a word remains iff it is its case class's most common spelling; it holds the class total; no two remaining words differ only in case |
| Utils.RepIsMostCommon | esqabe/utils.py:50-52 | the surviving spelling has the highest count in its case class |
| Utils.NoVariantUntouched | esqabe/utils.py:49-63 | a word with no case variant keeps its count |
| Utils.SingleClass | esqabe/utils.py:49-63 | a class with one member is represented by it, with its own count |
| Utils.AbsorbTotal | esqabe/utils.py:56-61 | the inner loop preserves the total of all counts |
| Utils.UnifyTotal | esqabe/utils.py:51-61 | merging preserves the total of all counts |
| Utils.UnifyCaseTotal | esqabe/utils.py:49-63 | `unify_case_in_counter` preserves the total of all counts |
| Utils.OthersMember | esqabe/utils.py:56-61 | the list left after the inner loop holds exactly the entries of another case class |
| Utils.OthersDistinct | esqabe/utils.py:56-61 | that list still has distinct words |
| Utils.TotalOverChange | esqabe/utils.py:58-59 | changing one count changes the total by exactly that difference |
| KreepUtil.AppDataLengths | esqabe/kreep/util.py:101-106 | at most one length per record |
| KreepUtil.AppDataLengthsSnoc | esqabe/kreep/util.py:102-106 | a further record adds its length iff it is application data (type 23) |
| KreepUtil.ParseTls | esqabe/kreep/util.py:91-108 | an undecodable payload gives no rows; otherwise one row per application-data record, in order, with the endpoints, time, record length and protocol |
| KreepUtil.LengthRows | esqabe/kreep/util.py:104-106 | one row per length |
| KreepUtil.ParseTcpMeans | esqabe/kreep/util.py:79-88 | an empty payload gives no rows; rows appear only for a segment to port 443 or an incoming one from port 443; the latter gives exactly one row carrying the payload length; otherwise a segment to port 443 gives its TLS rows; every row runs from the segment's source endpoint to its destination endpoint at the frame's time |
| KreepUtil.ParseTcpRows | esqabe/kreep/util.py:79-88 | the imperative `parse_tcp` yields the rows of `ParseTcp`, whose meaning `ParseTcpMeans` states |
| KreepUtil.GoogleCache.IsFromGoogle | esqabe/kreep/util.py:111-121 | the answer is cached per address; the cache only grows, and no cached answer changes |
| KreepUtil.ParseFrame | esqabe/kreep/util.py:55-76 | `parse_eth` with the cached Google test: the rows and direction of `ParseEth`; the cache grows only for the Google website |
| KreepUtil.LoadPcap | esqabe/kreep/util.py:38-52 | outgoing and incoming rows are the concatenated per-frame rows, split by direction |
| KreepUtil.SplitRowsAppend | esqabe/kreep/util.py:44-49 | loading two captures one after the other concatenates their rows |
| KreepUtil.OtherWebsitesHaveNoIncoming | esqabe/kreep/util.py:62-76 | for any website other than Google, no row is incoming |
| KreepUtil.DirectionMeansGoogle | esqabe/kreep/util.py:62-76 | a frame is incoming only if its source is a Google host and its destination is not, and outgoing only if its destination is; both only for the Google website |
| KreepUtil.GoogleGivesDirection | esqabe/kreep/util.py:64-76 | for "google" a Google destination gives OUTGOING (checked first), else a Google source gives INCOMING, else nothing is parsed; any other website gives UNKNOWN; the rows are parse_tcp's for that direction |
| KreepUtil.NonTcpYieldsNothing | esqabe/kreep/util.py:55-76 | non-IP and non-TCP frames give no row and direction UNKNOWN |
| KreepUtil.ParseEthCongruent | esqabe/kreep/util.py:55-76 | the result depends only on the answers of the Google test |
| Detection.Chains | esqabe/kreep/detection.py:82-96 | the table of best chains has one well-formed chain per position |
| Detection.ChainsStable | esqabe/kreep/detection.py:89-96 | later iterations never change earlier rows of the table |
| Detection.ScanHoldsLongest | esqabe/kreep/detection.py:90-93 | the inner loop holds the chain of the winner, which is accepted, is none iff no earlier chain is accepted, and is at least as long as every accepted one |
| Detection.ScanKeepsLastLongest | esqabe/kreep/detection.py:91 | every accepted chain after the winner is strictly shorter (ties go to the later chain) |
| Detection.ChainExtendsLastLongest | esqabe/kreep/detection.py:89-96 | the chain at i is the predecessor's chain plus i, or just i when no chain is accepted; it is longer than every accepted chain and two longer than every later accepted one |
| Detection.ChainShape | esqabe/kreep/detection.py:89-96 | each chain ends at its own position and is strictly increasing |
| Detection.ChainAdmissible | esqabe/kreep/detection.py:91 | every step of a chain was accepted by the rule on the lengths and times before it |
| Detection.SelectedIsBest | esqabe/kreep/detection.py:98-113 | the chosen chain is the longest; among equally long chains no later one has a smaller last gap, and every earlier one has a larger one |
| Detection.GapOfLengths | esqabe/kreep/detection.py:99-110 | the last gap of the lengths list is the last gap of the chain |
| Detection.GapOrder | esqabe/kreep/detection.py:111 | the gap comparison, with `inf < inf` false, is transitive through a non-smaller gap |
| Detection.BuildChains | esqabe/kreep/detection.py:82-96 | the DP loops fill both tables exactly as `Chains` defines them |
| Detection.ExtendChain | esqabe/kreep/detection.py:90-96 | one outer iteration builds row i of the table and its lengths |
| Detection.LongestDfaSequence | esqabe/kreep/detection.py:76-115 | `longest_dfa_sequence` returns `Longest` |
| Detection.BaiduChainSteps | esqabe/kreep/detection.py:58-67 | in an accepted Baidu chain each length grows by 2 to 30, and the first two steps take at most 2 s |
| Detection.GoogleChainSteps | esqabe/kreep/detection.py:19-55 | in an accepted Google chain lengths never drop, steps take at most 3 s (2.5 s for the first two), and no length repeats twice in a row |
| Detection.CandidatesMembers | esqabe/kreep/detection.py:120 | the candidates are exactly the rows longer than 100 |
| Detection.FlowKeysMembers | esqabe/kreep/detection.py:123 | the flows are exactly the distinct (src, dst, protocol) triples of the rows, without repeats |
| Detection.FlowRowsMembers | esqabe/kreep/detection.py:124 | a flow's rows are exactly the rows with its triple |
| Detection.FlowChainsAt | esqabe/kreep/detection.py:123-126 | the p-th chain is the longest accepted chain of the p-th flow |
| Detection.FlowChainAdmissible | esqabe/kreep/detection.py:125-126 | a flow's chain picks its rows along an admissible DP chain |
| Detection.BestOfIsFirstLongest | esqabe/kreep/detection.py:128-129 | the kept result is the first longest flow chain (empty if all are empty) |
| Detection.BestOfSnoc | esqabe/kreep/detection.py:128-129 | a further flow replaces the result only when strictly longer |
| Detection.PostFilter | esqabe/kreep/detection.py:131-133 | the last row is dropped iff the website is Google, there are at least two rows and the last length step is at least 4 |
| Detection.FilteredBest | esqabe/kreep/detection.py:128-133 | the filtered result is a prefix of the best chain, or empty when there is none |
| Detection.DetectFromBestFlow | esqabe/kreep/detection.py:118-135 | the detected keystrokes are a prefix of the chain of the first longest flow |
| Detection.DetectIsOneFlow | esqabe/kreep/detection.py:118-135 | every detected keystroke is a candidate row of one single flow |
| Detection.DetectIsLongest | esqabe/kreep/detection.py:118-135 | no flow has a longer accepted chain (Google: longer by at most the dropped row) |
| Detection.BaiduKeystrokeSteps | esqabe/kreep/detection.py:58-67 | detected Baidu keystrokes grow by 2 to 30 each |
| Detection.GoogleKeystrokeSteps | esqabe/kreep/detection.py:19-55 | detected Google keystrokes never drop and are at most 3 s apart |
| Detection.FlowChainOf | esqabe/kreep/detection.py:124-126 | the per-flow call returns `FlowChain` |
| Detection.LongestFlowChain | esqabe/kreep/detection.py:123-129 | the loop over the flows keeps the first longest chain |
| Detection.DetectKeystrokes | esqabe/kreep/detection.py:118-135 | `detect_keystrokes` returns `Detect` |
| Detection.DetectWebsiteKeystrokes | esqabe/kreep/detection.py:138-152 | Baidu wins only when strictly longer than Google; Google wins when non-empty; otherwise the website is '' with no keystrokes |
| Kreep.Ascending | esqabe/kreep/kreep.py:69 | the spike keys are strictly increasing and are the grouped keys |
| Kreep.Heavy | esqabe/kreep/kreep.py:70 | a key is kept iff its window carries more than 100000 bytes; order is kept |
| Kreep.SpikesAreHeavyWindows | esqabe/kreep/kreep.py:67-70 | the spikes are increasing and are exactly the 500 ms-aligned windows with more than 100000 bytes of incoming traffic |
| Kreep.SidesPartition | esqabe/kreep/kreep.py:38-39 | every keystroke is before or after the spike, never both |
| Kreep.Judge | esqabe/kreep/kreep.py:40-52 | the five branches: all before, none before, more than two thirds before, fewer than a third before, or in the middle |
| Kreep.TrimAtSpikes | esqabe/kreep/kreep.py:37-52 | the spike loop returns `Trim` |
| Kreep.TrimKeepsWindow | esqabe/kreep/kreep.py:37-52 | trimming keeps a subsequence of the keystrokes, namely those in one time window |
| Kreep.TrimIsWindow | esqabe/kreep/kreep.py:37-52 | trimming a window yields a window |
| Kreep.WindowIsSubsequence | esqabe/kreep/kreep.py:45-49 | a time window is a subsequence |
| Kreep.MaxOf | esqabe/kreep/kreep.py:58 | `max` is an element bounding all the others |
| Kreep.WordLengths | esqabe/kreep/kreep.py:58-62 | there is one slot per token value up to the largest; each slot counts the tokens equal to its index, less one for every slot but the last |
| Kreep.WordLengthsTotal | esqabe/kreep/kreep.py:58-62 | the word lengths sum to the token count minus the largest token |
| Kreep.LatestTime | esqabe/kreep/kreep.py:64 | the latest time is one of the keystrokes' times and bounds them all |
| Kreep.LongestFrame | esqabe/kreep/kreep.py:64 | the largest length is one of the keystrokes' lengths and bounds them all |
| Kreep.GreatestDst | esqabe/kreep/kreep.py:64 | the greatest destination is one of the keystrokes' and is lexicographically at least each |
| Kreep.StrLeqTotal | esqabe/kreep/kreep.py:64 | string order is total |
| Kreep.StrLeqTrans | esqabe/kreep/kreep.py:64 | string order is transitive |
| Kreep.MiniKreep | esqabe/kreep/kreep.py:22-64 | detection on the outgoing rows (a given rule, or the longer website), trimming at incoming spikes, tokenizing the kept keystrokes with the website name (given or detected) and the maximum word length, an error unless tokens match the kept keystrokes; otherwise word lengths and maxima of the kept keystrokes |
| Esqabe.WordPattern | esqabe/esqabe.py:93 | a word pattern holds no space |
| Esqabe.GeneratePattern | esqabe/esqabe.py:86-95 | `generate_pattern` returns the word patterns joined by single spaces |
| Esqabe.PatternWords | esqabe/esqabe.py:86-95 | no lengths give ""; otherwise splitting at spaces gives back one pattern per length, in order |
| Esqabe.PatternSpaces | esqabe/esqabe.py:89-93 | the pattern has one space fewer than there are word lengths |
| Search.UninterestingInside | esqabe/search_trace.py:250-258 | a name containing an uninteresting name is uninteresting |
| Search.KeywordsAreUninteresting | esqabe/search_trace.py:252-257 | every deny-listed keyword is itself uninteresting |
| Search.EffectPairs | esqabe/search_trace.py:130-220 | every pair a frame adds is (destination, server name of a decoded ClientHello) or (address, lower-cased name) of an A/AAAA answer from port 53 |
| Search.HelloPairsAdded | esqabe/search_trace.py:171-185 | a TCP packet with TLS records pairs its destination with every server name of each decoded handshake record met before the first undecodable one |
| Search.SniRecordNamesLastHost | esqabe/search_trace.py:178-185 | a recorded ClientHello packet's content is a name paired with its destination |
| Search.BiggerMembers | esqabe/search_trace.py:223-232 | an address is kept iff a TCP packet of at least 1240 bytes after the minimum time has it as source or destination |
| Search.FilterOutKeeps | esqabe/search_trace.py:222-244 | kept addresses are big-flow addresses with no uninteresting name; kept pairs have a big-flow address and an interesting name |
| Search.LastKey | esqabe/search_trace.py:80 | the last index is an occupied bucket at least every packet's bucket |
| Search.GuessesAreEmitted | esqabe/search_trace.py:85-108 | the guesses are exactly the (name, time) of the announcements that started a visit, each once, in announcement order |
| Search.EmittedMembers | esqabe/search_trace.py:102-104 | a pair is guessed iff some announcement that started a visit carries that name and time |
| Search.EmittedMeans | esqabe/search_trace.py:86-102 | a guessed announcement is after the minimum time, names an interesting non-Google host, and is followed by more than 50000 bytes |
| Search.ActiveUntilGap | esqabe/search_trace.py:97-105 | a visit stays active until an announcement, not before the minimum time, comes more than 3 s after the last interesting one |
| Search.OneGuessPerVisit | esqabe/search_trace.py:97-105 | between two guesses there is always such a gap: one guess per visit |
| Search.VolumeIsWindowSum | esqabe/search_trace.py:89-93 | `next_len` is the traffic from the announcement's window up to 4 s on, capped at the last window |
| Search.GuessVisits | esqabe/search_trace.py:82-110 | the guessing loop returns the guesses of `Run` |
| Search.GuessStep | esqabe/search_trace.py:86-108 | one pass of the loop is `Step` |
| Search.NextLength | esqabe/search_trace.py:89-93 | the inner loop computes `Volume` |
| Search.SearchTrace.constructor | esqabe/search_trace.py:31-39 | a new trace has no addresses, pairs or packets, and minimum time 0 |
| Search.SearchTrace.SetInterestingMinimumTime | esqabe/search_trace.py:45-46 | sets the minimum time only |
| Search.SearchTrace.GetUnrecognisedIps | esqabe/search_trace.py:54-64 | returns, without repeats, exactly the addresses with no name |
| Search.SearchTrace.IpToDomain | esqabe/search_trace.py:66-71 | returns a name paired with the address, or None iff there is none |
| Search.SearchTrace.MakeWebsiteGuess | esqabe/search_trace.py:73-110 | returns `WebsiteGuesses` of the recorded packets |
| Search.SearchTrace.Parse | esqabe/search_trace.py:112-122 | records the handled frames in order, and leaves the addresses and pairs of all frames, filtered |
| Search.SearchTrace.FilterOut | esqabe/search_trace.py:222-244 | sets the addresses and pairs to their filtered values |
| Search.SearchTrace.HandleIp | esqabe/search_trace.py:130-140 | adds a frame's addresses and pairs and returns its record, as `FrameEffect` says |
| Search.SearchTrace.HandleTls | esqabe/search_trace.py:159-187 | adds the server-name pairs of a TCP frame and returns its record |
| Search.SearchTrace.HandleRecords | esqabe/search_trace.py:171-187 | the record loop adds the ClientHello names found up to the first undecodable handshake and marks the last one |
| Search.SearchTrace.HandleHello | esqabe/search_trace.py:178-185 | the extension loop pairs each server name with the destination and marks the last |
| Search.SearchTrace.HandleDns | esqabe/search_trace.py:206-220 | adds the answer pairs of a DNS response from port 53 and returns its record |
| Search.AddServerNames | esqabe/search_trace.py:179-185 | the extension loop adds exactly the server-name pairs |
| Search.AddAddressPairs | esqabe/search_trace.py:213-217 | the answer loop adds exactly the A/AAAA pairs |
| WikiTraces.WikiNamesMembers | esqabe/wiki_trace.py:153 | the kept names are exactly the Wikipedia names |
| WikiTraces.WikiAnswersMembers | esqabe/wiki_trace.py:174-180 | the kept answers are exactly the A/AAAA pairs that name a Wikipedia host |
| WikiTraces.WikiEffectFiltersSearch | esqabe/wiki_trace.py:104-183 | a Wikipedia trace reads a frame like a search trace, keeps only Wikipedia pairs, and records the same packets without kind or content |
| WikiTraces.EffectKeepsMapping | esqabe/wiki_trace.py:153-155 | what a frame adds keeps every pair a Wikipedia pair whose address is a Wikipedia address |
| WikiTraces.WikiPairsSound | esqabe/wiki_trace.py:60-69 | after parsing, every pair names Wikipedia and the Wikipedia addresses are exactly the paired ones |
| WikiTraces.KeepWikiMembers | esqabe/wiki_trace.py:185-187 | the filtered packets are exactly those to or from a Wikipedia address |
| WikiTraces.KeepWikiIdempotent | esqabe/wiki_trace.py:185-187 | filtering twice changes nothing more |
| WikiTraces.HistogramKeyInjective | esqabe/wiki_trace.py:85-89 | two packets share a key iff they agree on direction and length |
| WikiTraces.HistogramCounts | esqabe/wiki_trace.py:80-96 | each key counts the packets with that key, and only keys of packets are present |
| WikiTraces.HistogramTotal | esqabe/wiki_trace.py:80-96 | the counts sum to the number of packets |
| WikiTraces.WikiTrace.constructor | esqabe/wiki_trace.py:33-41 | a new trace is empty, has no frame yet, and is valid |
| WikiTraces.WikiTrace.InitDf | esqabe/wiki_trace.py:98-100 | builds the frame from the packets unless one exists (or when forced) |
| WikiTraces.WikiTrace.GetPacketsDf | esqabe/wiki_trace.py:43-45 | returns the existing frame, or one built from the packets |
| WikiTraces.WikiTrace.InsertDf | esqabe/wiki_trace.py:71-72 | replaces the frame only |
| WikiTraces.WikiTrace.ExtendWikiIps | esqabe/wiki_trace.py:57-58 | adds the addresses and stays valid |
| WikiTraces.WikiTrace.IpToDomain | esqabe/wiki_trace.py:50-55 | returns a name paired with the address, or None iff there is none |
| WikiTraces.WikiTrace.Parse | esqabe/wiki_trace.py:60-69 | records the handled frames, adds the Wikipedia addresses and pairs, keeps the frame to Wikipedia traffic, and stays valid |
| WikiTraces.WikiTrace.FilterOut | esqabe/wiki_trace.py:185-187 | the frame keeps the packets to or from a Wikipedia address |
| WikiTraces.WikiTrace.GetHistogram | esqabe/wiki_trace.py:80-96 | returns `Histogram` of the frame |
| WikiTraces.WikiTrace.HandleIp | esqabe/wiki_trace.py:104-114 | adds a frame's Wikipedia addresses and pairs, returns its record, and stays valid |
| WikiTraces.WikiTrace.HandleTls | esqabe/wiki_trace.py:130-157 | the TCP case of `WikiFrameEffect`, staying valid |
| WikiTraces.WikiTrace.HandleRecords | esqabe/wiki_trace.py:142-157 | the record loop adds the Wikipedia names found up to the first undecodable handshake |
| WikiTraces.WikiTrace.HandleHello | esqabe/wiki_trace.py:149-155 | the extension loop adds exactly the Wikipedia server names and the destination |
| WikiTraces.WikiTrace.HandleDns | esqabe/wiki_trace.py:167-183 | the UDP case of `WikiFrameEffect`, staying valid |
| WikiTraces.WikiTrace.HandleAnswers | esqabe/wiki_trace.py:174-180 | the answer loop adds exactly the Wikipedia A/AAAA pairs and addresses |
| WikiTraces.AddHelloNames | esqabe/wiki_trace.py:150-155 | the extension loop on values adds exactly the Wikipedia server-name pairs and the destination |
| WikiTraces.AddAnswers | esqabe/wiki_trace.py:174-180 | the answer loop on values adds exactly the Wikipedia answer pairs and addresses |
| WikiComparer.IsFromWikiNames | esqabe/wiki_fingerprint_comparer.py:22-24 | the comparer's test holds iff "wikipedia.org" or "wikimedia.org" occurs in the name |
| WikiComparer.WikiAddressesMembers | esqabe/wiki_fingerprint_comparer.py:26-29 | an address is added iff some pair gives it with a Wikipedia name |
| WikiComparer.WikiAddressesAppend | esqabe/wiki_fingerprint_comparer.py:26-29 | feeding two lists in turn adds their addresses in order |
| WikiComparer.WikiFingerprintComparer.constructor | esqabe/wiki_fingerprint_comparer.py:18-20 | starts with no Wikipedia addresses |
| WikiComparer.WikiFingerprintComparer.FeedWithIpDomains | esqabe/wiki_fingerprint_comparer.py:26-29 | appends the addresses of the Wikipedia pairs, in order |
| WikiComparer.WikiFingerprintComparer.AddWikiIps | esqabe/wiki_fingerprint_comparer.py:31-32 | appends the addresses |
| WikiComparer.SetWikiDomain | esqabe/wiki_fingerprint_comparer.py:34-40 | the language chosen is one label (no dot) |
| WikiComparer.SetWikiDomainAccepts | esqabe/wiki_fingerprint_comparer.py:34-40 | `<lang>.wikipedia<rest>` selects `lang` |
| WikiComparer.SetWikiDomainShape | esqabe/wiki_fingerprint_comparer.py:34-40 | every accepted name has that shape |
| WikiComparer.SetWikiDomainMissing | esqabe/wiki_fingerprint_comparer.py:35-37 | a name without a dot fails on the missing second label, and only such a name does |
| WikiComparer.PossibleWikiMembers | esqabe/wiki_fingerprint_comparer.py:100 | the candidates are exactly the packets from time ts on, to or from a Wikipedia address |
| WikiComparer.FirstGap | esqabe/wiki_fingerprint_comparer.py:101-102 | the first candidate followed by a gap of more than 4 s (the last always is) |
| WikiComparer.NoLaterThanMembers | esqabe/wiki_fingerprint_comparer.py:103 | the kept packets are exactly those no later than the cut-off |
| WikiComparer.FilterInteresting | esqabe/wiki_fingerprint_comparer.py:99-103 | fails exactly when there is no candidate packet |
| WikiComparer.FilterInterestingSound | esqabe/wiki_fingerprint_comparer.py:99-103 | the result is exactly the candidates no later than the first one followed by a gap |
| WikiComparer.FilterInterestingPrefix | esqabe/wiki_fingerprint_comparer.py:99-103 | on a time-ordered capture, the result is the non-empty run of candidates up to the first gap of more than 4 s |
| WekaApi.CommandArgs | esqabe/fingerprinting/classifiers/wekaAPI.py:11-22 | the argument list is the fixed start followed by the extra arguments in order |
| WekaApi.CommandWords | esqabe/fingerprinting/classifiers/wekaAPI.py:24 | the command line is the fixed start, a space, then the extra arguments; space-free arguments split back out |
| WekaApi.RStrip | esqabe/fingerprinting/classifiers/wekaAPI.py:29 | `rstrip` is a prefix that removes only whitespace and ends in non-whitespace |
| WekaApi.ParseLineReads | esqabe/fingerprinting/classifiers/wekaAPI.py:34-37 | a line `inst,n:actual,m:predicted,...` yields (actual, predicted) |
| WekaApi.ReadAnswers | esqabe/fingerprinting/classifiers/wekaAPI.py:26-42 | the output loop returns `Answers` of the lines |
| WekaApi.Execute | esqabe/fingerprinting/classifiers/wekaAPI.py:10-42 | the command line run and the answers read |
| WekaApi.NoHeaderNoAnswers | esqabe/fingerprinting/classifiers/wekaAPI.py:39-40 | without the header line nothing is read |
| WekaApi.SkipToHeader | esqabe/fingerprinting/classifiers/wekaAPI.py:31-40 | lines up to the first header contribute nothing |
| WekaApi.StopAtEmpty | esqabe/fingerprinting/classifiers/wekaAPI.py:32-33 | nothing after the first empty line is read |
| WekaApi.AnswersInOrder | esqabe/fingerprinting/classifiers/wekaAPI.py:31-37 | after the header, each line gives one answer, in line order, with what it says |

## Left out

- Packet decoding (pcapng reading, Ethernet/IP/TCP/UDP, TLS records and handshakes, DNS). A frame is given as the values decoding yields; a decoding exception is `None`.
- Address rendering (`inet_to_str`, `ip_to_str`): addresses are already strings.
- Reverse DNS (`socket.gethostbyaddr`): an oracle parameter behind `KreepUtil.GoogleCache`; a lookup error is its `None`.
- `SearchTrace.__handle_google`: it has no caller in the source.
- `SearchTrace.get_ip_domain_mapping` and `get_data_from_google_packets`, and `WikiTrace.get_id`/`get_url`: plain field reads.
- The search trace's frame cache (`packets_df`, `_init_df`): its frame is always the recorded packets. The Wikipedia trace keeps its cache.
- Pandas frames: a frame is a sequence of records, and columns a record does not set hold `Data`/"" instead of NaN.
- Floating point: times are whole milliseconds (`ts * 1000` rounded by the caller).
- `str.lower` is ASCII only; non-ASCII names are outside the model.
- Set iteration order: `Search.SearchTrace.GetUnrecognisedIps`, `Search.SearchTrace.IpToDomain` and `WikiTraces.WikiTrace.IpToDomain` pick the set's elements in an unspecified order. `GetUnrecognisedIps` promises the set of addresses it returns (each once), not their order; `IpToDomain` promises some matching name, not the first one Python's set iteration would meet. `WikiComparer.WikiFingerprintComparer.FeedWithIpDomains` takes its pairs as a sequence and keeps their order.
- `Counter.most_common()` order is a parameter (`MostCommon`), not computed.
- `tokenize_words` (tokenization.py is not part of this model): an oracle parameter of `Kreep.MiniKreep`, given the kept keystrokes, the website name and `max_word_len`, as at esqabe/kreep/kreep.py:56.
- An unknown website string in `detect_keystrokes`: a `KeyError` in the source; the model takes a `Rule`.
- The `print` calls of `mini_kreep` and `compare`.
- `WikiFingerprintComparer.compare` and `_generate_wiki_urls`: they call the Wikipedia service, a browser and the classifier.
- `wikipedia.set_lang`: `SetWikiDomain` returns the language instead.
- `LiberatoreClassifier`, `FingerprintVisitor`, `WebsiteVisit`, `main` and the `esqabe()` orchestration.
- The Weka subprocess: its standard output is a parameter; `Execute` returns the command line instead of running it. The configuration constants are fixed to their default values.
- WekaApi.CommandWords: states the split-back property for the extra arguments only, because the fixed start contains caller-supplied file and classifier names.
