# ssrfguard, modelled and proved in Dafny

ssrfguard makes one argument in four steps: bytes that somebody else chose become addresses, addresses become
verdicts, verdicts become at most one validated connection, and what was decided is remembered for comparison.
This project models the four steps and proves what each promises, for every input, every run and every answer
the network may give.

| file | what it holds |
|---|---|
| `Wire.dfy` | optional values, big-endian numbers, the text of names split on dots |
| `Names.dfy` | the label encoder and the pointer-following decoder |
| `Messages.dfy` | the question check and the record walk of one DNS reply |
| `Classification.dfy` | what a reply is taken for, read off its bytes |
| `Replies.dfy` | a printer of queries and replies, and the proof that parsing undoes it |
| `StubResolver.dfy` | the stub resolver over a scripted network and a clock |
| `ResolverBounds.dfy` | its deadline, its work, forgeries, framing and where answers come from |
| `Attempts.dfy` | the attempts one call makes: what escapes, what overruns, and completeness |
| `Answers.dfy` | how a call ends, by its attempts and what arrives on each |
| `Ceiling.dfy` | which configurations keep the documented ceiling on a call |
| `Networks.dfy` | addresses and networks as numbers; nesting |
| `AddressTable.dfy` | longest-prefix matching and translation decoding, for any table |
| `Registry.dfy` | the sixty shipped rows and what decoding makes of them |
| `Verdicts.dfy` | what the shipped table refuses, as ranges of addresses |
| `Policies.dfy` | the address allowlist and the entries it refuses |
| `Hosts.dfy` | host checks, the host allowlist, and the fit between policy and resolver |
| `HostChecks.dfy` | what the host checks come to, read off the characters |
| `Resolving.dfy` | one lookup, every answer validated |
| `Connecting.dfy` | failover, the attempt cap, the peer check, socket conservation |
| `Clients.dfy` | the two HTTP backends |
| `Redirects.dfy` | chains of redirects under the cap |
| `EndToEnd.dfy` | the resolver under a policy |
| `Watch.dfy` | `RebindingWatch` and its closed form |

How the surroundings are modelled:

- **The network is a script, quantified over.** Each DNS attempt meets an arbitrary list of datagrams and an arbitrary
  TCP stream, each event with its own arrival time; each socket meets arbitrary failures at every call and an
  arbitrary peer; a resolver may answer differently every time. Every theorem holds for all scripts.
- **Time is a real number and only waiting spends it.** A socket call returns within the timeout set on it, a UDP send
  is instantaneous, and inboxes are finite. An event that arrives exactly at a limit has missed it.
- **Every socket has its place in a log** of what it was told to connect to, so a theorem about where connections went is
  about the connect calls themselves and not about what they returned.
- **Exceptions are constructors.** `Malformed`, `WrongQuestion` and `ServerFailure` are the three private exceptions of
  the parser; `Timeout`, `OsError` and `OtherError` are the three kinds the failover loops tell apart.
- **Bit masks are ranges and remainders**; `Wire.MasksAreRanges` states each one on bit vectors.
- Text parsers of other libraries (`idna`, IPv6 text) are function parameters; dotted quads are modelled.

Where the code does something other than its documentation, or a reader, would expect:

- `UdpResolver.__call__` promises that only `socket.gaierror` escapes. Of the exceptions modelled here one more does: when a
  truncated UDP answer is followed by a TCP message for another question. `Attempts.CallEscapes` says, on the bytes, exactly
  when a call raises it, and `Attempts.EveryCallCanEscape` gives, for every configuration and every name, a network that does it.
- `timeout` is documented as the ceiling on one call. `sendall` over TCP runs under a timeout computed before the connection
  was made, so a blocked send outlives it. `Ceiling.CeilingMeaning` says for which configurations some network can do that:
  those that grant a call two attempts, or one with three times `attempt_timeout` beyond `timeout`. The defaults are among
  them (`Ceiling.DefaultsGiveWay`). `Attempts.CallOverruns` says exactly which runs do, and that the call then fails;
  `ResolverBounds.CallCost` bounds the excess by one `attempt_timeout`.
- The echoed question is compared as joined text, so a reply about the one label `a.b` is accepted for the two labels `a` and
  `b`. `Messages.AcceptedLabels` shows that a dot inside a label is the only way, and `Replies.DottedReplyIsAccepted` that it is one.
- Three kinds of name decode and are not written back: the root name, a name of 255 label bytes (the decoder leaves the
  root label uncounted), and a name with a dot inside a label. `Names.DecodeThenEncode` shows there are no others;
  `Names.RootIsRefused`, `Names.LongestIsRefused` and `Names.DotIsSplit` show each.
- The construction check on `allowed_networks` over-refuses: `Policies.OverRejection` is an entry it should let through, and
  `Policies.RefusalIsRight` says exactly which refusals are right.
- `connect` checks an address's `ip` and dials its `sockaddr`. For what `resolve` returns the two are the same
  (`Clients.PinnedFit`). For a list built by hand only the peer check, after the connection, ties them:
  `Connecting.DialsArePermitted` says exactly which lists never dial a refused address, and `Connecting.LoopbackIsDialled` is
  one that passes the check under the shipped table and dials 127.0.0.1.
- The two backends part where a socket option or the resolver itself fails, and over a stream with no remote address:
  `Clients.AlikeIsExact`, `Clients.ClientsAgree`, `Clients.LogsAgree`, `Clients.OptionFaultParts` and
  `Clients.ResolverFaultParts` say exactly where.

## Model

| member | source | states |
|---|---|---|
| Names.EncodeName | src/ssrfguard/resolvers.py:188-222 | the label loop yields the wire name exactly for non-empty ASCII labels of at most 63 bytes and 255 bytes in all, and refuses everything else |
| Names.EncodeThenDecode | src/ssrfguard/resolvers.py:188-264 | an encoded name placed inside any message decodes to the name without trailing dots and to the offset just past it |
| Names.DecodeThenEncode | src/ssrfguard/resolvers.py:204-264 | every name that decodes re-encodes to its own labels if and only if it has a label, no label holds a dot, and the labels fill fewer than 255 bytes |
| Names.RootIsRefused | src/ssrfguard/resolvers.py:204-264 | the root name decodes and is refused by the encoder |
| Names.LongestIsRefused | src/ssrfguard/resolvers.py:217-259 | every dot-free name of exactly 255 label bytes decodes and is refused by the encoder |
| Names.DotIsSplit | src/ssrfguard/resolvers.py:204-264 | a label holding a dot decodes and is written back as two labels, to other bytes |
| Names.DecodeMeaning | src/ssrfguard/resolvers.py:225-292 | decoding succeeds if and only if the name expands, by the unbounded definition, within 64 pointers and 255 bytes; the text is that expansion, and the end lies after the start and inside the message |
| Names.ExpansionUnique | src/ssrfguard/resolvers.py:225-264 | a name has at most one expansion and one number of jumps |
| Names.FollowLabels | src/ssrfguard/resolvers.py:241-264 | the decoding loop computes the bounded expansion and its in-place end, and takes at most 192 steps on any bytes |
| Names.DecodeName | src/ssrfguard/resolvers.py:225-264 | the loop returns what the definition of decoding returns |
| Messages.ReadRecords | src/ssrfguard/resolvers.py:384-421 | one pass with a growing set of owners finds exactly the records whose owner the question reaches through IN CNAMEs standing earlier, in order, and fails exactly when a reached record is unusable or a record is cut short |
| Messages.AnsweringSound | src/ssrfguard/resolvers.py:410-420 | every address returned stands in a reached record of class IN and the type asked, with its own TTL and its place in the order |
| Messages.AnsweringComplete | src/ssrfguard/resolvers.py:410-420 | every reached record of class IN and the type asked is returned, at the place its predecessors leave it |
| Messages.ParseReply | src/ssrfguard/resolvers.py:315-352 | the reply is classified as an answer or one of the three exceptions, in the order the checks are made |
| Classification.ParseMeaning | src/ssrfguard/resolvers.py:335-352 | one condition on the bytes for each outcome: an answer for code 3 (empty, untruncated) or 0 with a walkable section, a server failure for every other code, another question, or malformed |
| Classification.CodesApart | src/ssrfguard/resolvers.py:343-347 | a reply to the question with code 3 is an empty answer and with code 2 a server failure |
| Messages.AcceptedMeansAsked | src/ssrfguard/resolvers.py:335-381 | an accepted reply carries the transaction id, the response bit, one question, a name expanding to the one asked up to case, and the type and class asked |
| Wire.LowerMeaning | src/ssrfguard/resolvers.py:376-376 | two texts are one in lower case if and only if they agree place by place up to the case of ASCII letters |
| Messages.AcceptedLabels | src/ssrfguard/resolvers.py:374-376 | the question of an accepted reply is the one asked label for label, up to case, if and only if it has a label and none holds a dot |
| Replies.DottedReplyIsAccepted | src/ssrfguard/resolvers.py:374-376 | a reply about the one label that spells two is accepted for the two, for every such pair |
| Messages.ParseSize | src/ssrfguard/resolvers.py:355-468 | whatever ANCOUNT claims, k records cost 17 + 15k message bytes for A and 17 + 27k for AAAA |
| Messages.ParseFamily | src/ssrfguard/resolvers.py:449-468 | every address read belongs to the family asked for and fits it |
| Replies.NameBack | src/ssrfguard/resolvers.py:225-292 | a name printed plainly or closed by a pointer into what was printed before reads back as what it means |
| Replies.ChainSelected | src/ssrfguard/resolvers.py:389-421 | an in-order alias chain followed by answers owned by its end yields exactly those answers |
| Replies.ParserUndoesPrinter | tests/scripted_dns.py:79-125 | parsing any printed reply (echoed question, alias chain, addresses, plain or compressed owners, trailing sections) gives back exactly the addresses and TTLs in order, and the truncation bit |
| Replies.QueryBack | src/ssrfguard/resolvers.py:722-728 | the query asked reads back as one recursive question with this id, name and type, and nothing behind it |
| StubResolver.WaitForAnswer | src/ssrfguard/resolvers.py:758-771 | the UDP wait computes the exchange function: wrong-question replies do not end it, everything else does |
| StubResolver.ReceiveExactly | src/ssrfguard/resolvers.py:834-858 | the read loop computes the framing function |
| StubResolver.AskOverTcp | src/ssrfguard/resolvers.py:799-808 | the TCP exchange computes its function: connect and send each under the smaller limit taken before connecting, then a two-byte length and the message under the deadline, and a second truncation is malformed |
| StubResolver.AskServer | src/ssrfguard/resolvers.py:722-732 | one question is one UDP exchange and a TCP one only after a truncated answer |
| StubResolver.QueryServers | src/ssrfguard/resolvers.py:692-702 | the loops over servers and attempts are one countdown that stops at the first answer, at the deadline, or at the exception not caught |
| StubResolver.LookUp | src/ssrfguard/resolvers.py:665-675 | the families in scope are asked in order and the first that is not answered fails the lookup |
| StubResolver.CallResolver | src/ssrfguard/resolvers.py:620-627 | a literal is never looked up, an empty result is an error, and otherwise every record is a row |
| ResolverBounds.CallCost | src/ssrfguard/resolvers.py:529-534 | one call ends by its start plus the timeout plus one attempt timeout, after at most families x nameservers x attempts UDP exchanges and no more TCP exchanges than that |
| ResolverBounds.QueryCost | src/ssrfguard/resolvers.py:677-702 | a query never begins an attempt past the deadline or its attempts, and gives up before the deadline only after using every attempt |
| ResolverBounds.AskCost | src/ssrfguard/resolvers.py:704-808 | an attempt is one UDP exchange, at most one TCP exchange, and ends by the deadline or by one attempt timeout after it |
| ResolverBounds.TcpInTime | src/ssrfguard/resolvers.py:799-808 | a TCP exchange ends after the deadline if and only if its send is still blocked at the deadline, and then it has failed |
| ResolverBounds.ForgeriesChangeNothing | src/ssrfguard/resolvers.py:143-150 | dropping every wrong-question datagram from an ordered inbox changes neither the result of an exchange nor when it ends |
| ResolverBounds.UdpFirst | src/ssrfguard/resolvers.py:758-771 | whenever some datagram is the first not for another question and came in time, the exchange is its parse, at the moment it arrived |
| ResolverBounds.UdpProvenance | src/ssrfguard/resolvers.py:758-771 | and an exchange that neither times out nor breaks has such a datagram |
| ResolverBounds.TcpProvenance | src/ssrfguard/resolvers.py:799-808 | a TCP exchange is the parse of the message its two-byte prefix delimits in the bytes that arrived in time, malformed if truncated; with no such message it fails in a way that is tried again |
| ResolverBounds.ReceiveMeaning | src/ssrfguard/resolvers.py:834-858 | reading n bytes succeeds exactly when n are timely, yields exactly the first n, and leaves the rest unread |
| ResolverBounds.ChunkingIsInvisible | src/ssrfguard/resolvers.py:849-858 | two streams with the same timely bytes are read alike however they are chunked |
| Attempts.ForeignOnlyOverTcp | src/ssrfguard/resolvers.py:704-808 | the uncaught exception leaves an attempt if and only if the first datagram not for another question is a truncated answer and the message TCP delivers in time is for another question |
| Attempts.AskMeaning | src/ssrfguard/resolvers.py:722-732 | an attempt is answered, by these records and untruncated, if and only if the first genuine datagram parses to that answer, or to a truncated one while the message TCP delivers parses to it |
| Attempts.RetriedMeaning | src/ssrfguard/resolvers.py:697-701 | an attempt is tried again if and only if what arrives neither answers it nor escapes |
| Attempts.QueryAnswers | src/ssrfguard/resolvers.py:692-702 | a query is answered if and only if some attempt it makes is, with that attempt's records |
| Attempts.LateOnlyOverTcp | src/ssrfguard/resolvers.py:704-808 | an attempt ends after the deadline if and only if a truncated answer leads to a TCP send still blocked at the deadline |
| Attempts.CallEscapes | src/ssrfguard/resolvers.py:620-702 | a call raises something other than gaierror if and only if some attempt it makes does so on its bytes |
| Attempts.EveryCallCanEscape | src/ssrfguard/resolvers.py:795-808 | for every configuration and every name that can be asked some network makes the call raise it |
| Attempts.CallOverruns | src/ssrfguard/resolvers.py:529-534 | a call outlives its timeout if and only if some attempt it makes is still sending over TCP at the deadline, and then it ends in gaierror |
| Ceiling.CeilingMeaning | src/ssrfguard/resolvers.py:529-548 | for every valid configuration and every call: some network makes it outlive its timeout if and only if it goes to the network and is granted two attempts, or one with three times the attempt timeout beyond the timeout |
| Ceiling.CeilingHolds | src/ssrfguard/resolvers.py:529-534 | where that condition fails, every call ends within its timeout on every network |
| Ceiling.CeilingGivesWay | src/ssrfguard/resolvers.py:799-801 | where it holds, a network is built for every name that makes the call outlive its timeout |
| Ceiling.DefaultsGiveWay | src/ssrfguard/resolvers.py:543-548 | the default configuration does not keep its ceiling, for any name and any family asked for |
| Attempts.LookupIsComplete | src/ssrfguard/resolvers.py:611-675 | if every attempt made whose messages hold an answer holds its family's full set, a lookup returns the complete set in family order, or fails |
| Answers.CallMeaning | src/ssrfguard/resolvers.py:620-675 | a call ends in rows if and only if it is a literal's own address, or every family in scope has an attempt made that is answered and their records, in configured order, are not none; and in gaierror if and only if it may not or cannot ask, some family is not answered, or there is no record |
| Answers.GatheredFamilies | src/ssrfguard/resolvers.py:449-468 | what is gathered for a family is valid addresses of that family |
| EndToEnd.SuppressionCannotChangeTheVerdict | src/ssrfguard/resolvers.py:611-627 | under any suppression of the attempts made, resolving through the stub resolver ends as on the whole answer set or fails to resolve, never as on a proper part |
| EndToEnd.WholeVerdict | src/ssrfguard/_resolve.py:281-285 | under `reject`, a fully answered name resolves exactly when it has an address and every record is permitted |
| EndToEnd.AnsweredVerdict | src/ssrfguard/_resolve.py:248-285 | when every family has an attempt made that is answered, the name resolves under `reject` if and only if there is a record and every one is permitted |
| Networks.Nested | src/ssrfguard/_address.py:215-217 | of two networks sharing an address the longer-prefix one is inside the other, and equal prefixes are one network |
| Networks.ContainsInterval | src/ssrfguard/_address.py:216-216 | masked membership is the interval of the network's size from its base |
| AddressTable.BuildTable | src/ssrfguard/_address.py:157-190 | construction refuses exactly the tables with a duplicated network, and otherwise indexes each family |
| AddressTable.SortOrders | src/ssrfguard/_address.py:181-189 | the index stands longest prefix first |
| AddressTable.MatchMeaning | src/ssrfguard/_address.py:206-218 | a lookup returns the one longest-prefix row containing the address, and nothing exactly when no row does |
| AddressTable.OrderIsIrrelevant | src/ssrfguard/_registry.py:86-88 | tables with the same rows in any order match and classify every address alike, chain included |
| AddressTable.ClassifyMeaning | src/ssrfguard/_address.py:237-265 | for any table: denied refuses, permitted or no row allows, translated refuses exactly when undecodable or when something carried is refused; no chain is longer than one hop |
| AddressTable.VerdictNamesTheDecider | src/ssrfguard/_address.py:259-264 | a refusal names the address's own row, or one hop and the row that refused what is carried |
| AddressTable.RefusalNamesTheFirst | src/ssrfguard/_address.py:259-264 | of several carried addresses the first refused one is named |
| AddressTable.RedundantRowsChangeNothing | src/ssrfguard/_address.py:206-265 | dropping denied rows whose smallest enclosing kept row denies changes no address's verdict, for any table |
| Registry.TableIsValid | src/ssrfguard/_registry.py:88-277 | the sixty shipped rows have no host bits and no duplicates, with or without the metadata rows |
| Registry.FormsKeepVerdict | src/ssrfguard/_registry.py:125-204 | for all 32-bit v and any low 80 bits, the mapped, NAT64, 6to4 and IPv4-compatible forms of v are refused exactly when v is |
| Registry.TeredoVerdict | src/ssrfguard/_address.py:112-117 | a Teredo address is refused exactly when its server or its inverted client is |
| Registry.MetadataRowsAreRedundant | src/ssrfguard/_registry.py:231-276 | dropping all five metadata rows changes no verdict on any address |
| Verdicts.Verdict4 | src/ssrfguard/_registry.py:88-277 | the shipped table refuses an IPv4 address if and only if it is in one of fourteen ranges and is not 192.0.0.9 or 192.0.0.10 |
| Verdicts.Verdict6 | src/ssrfguard/_registry.py:88-277 | the shipped table refuses an IPv6 address if and only if what it wraps is refused, or, outside the wrappers, its own range is |
| Policies.RejectAllowingATranslationPrefix | src/ssrfguard/_policy.py:312-354 | the loop refuses a policy exactly when some allowed entry is decided as a whole by a translated row |
| Policies.CheckAddress | src/ssrfguard/_policy.py:359-374 | an allowed entry beats the table, and otherwise the table decides |
| Policies.PermitsMeaning | src/ssrfguard/_policy.py:359-374 | an address is permitted if and only if some allowed entry spans it, whatever row denies it inside, or the longest row over it does not deny it |
| Policies.ShippedPermits | src/ssrfguard/_policy.py:359-374 | under the shipped table, if and only if some allowed entry spans it or it is outside the refused ranges |
| Policies.AllowedWrapperIsInside | src/ssrfguard/_policy.py:312-374 | under any constructed policy, an allowed address whose longest match is translated has that row strictly inside the entry |
| Policies.RejectionIsExact | src/ssrfguard/_policy.py:320-333 | for an address of an entry that no row strictly inside covers, construction refuses the entry if and only if a translated row decides that address |
| Policies.RefusalIsRight | src/ssrfguard/_policy.py:312-354 | an entry is refused and leaves some address uncovered by rows strictly inside it, if and only if allowing it would pass an address that a translated row not inside it decides |
| Policies.NothingToDecode | src/ssrfguard/_policy.py:320-333 | when rows strictly inside an entry cover it and none is translated, no address of it is decided by a translated row, refused or not |
| Policies.OverRejection | src/ssrfguard/_policy.py:834-851 | ::/127 is refused under the shipped table though rows of their own deny both its addresses |
| Hosts.CheapTestAgrees | src/ssrfguard/_policy.py:672-681 | whatever parses as an address is digits and dots or holds a colon |
| Hosts.V4TextRoundTrip | src/ssrfguard/_policy.py:854-868 | every IPv4 address parses back from its dotted text |
| HostChecks.ParseV4Meaning | src/ssrfguard/_policy.py:854-868 | text parses as an IPv4 address if and only if it is that address's dotted text |
| HostChecks.HostnameMeaning | src/ssrfguard/_policy.py:65-65 | the pattern accepts exactly the texts whose labels are well formed, one trailing dot aside |
| HostChecks.CheckHostMeaning | src/ssrfguard/_policy.py:657-690 | a usable host is a literal if and only if it parses as an address, otherwise a name if and only if it is not digits and dots alone and its labels are well formed, and refused otherwise |
| HostChecks.EncodedIsRefused | src/ssrfguard/_policy.py:682-687 | a host of digits and dots that is no dotted IPv4 text is refused |
| HostChecks.ThreeEncodings | src/ssrfguard/_policy.py:682-687 | 2130706433, 127.1 and 0177.0.0.1 are refused |
| Hosts.NamesAreAskable | src/ssrfguard/_policy.py:664-690 | every ASCII host accepted as a name encodes in at most 255 bytes and decodes back, inside any message, to the name without its dot |
| Hosts.AllowlistMeaning | src/ssrfguard/_policy.py:930-963 | the string test on hosts is matching on whole labels: exact, or a wildcard's labels last with something before them, and literals only exactly |
| Hosts.TrailingDotIgnored | src/ssrfguard/_policy.py:951-951 | a trailing dot on the host changes nothing |
| Hosts.SeamAgrees | src/ssrfguard/_policy.py:432-434 | `check_host` and the allowlist step of `check_url` agree on every host the URL layer accepts |
| Hosts.PatternsAreUsable | src/ssrfguard/_policy.py:896-927 | every accepted ASCII entry is a star-free name or a wildcard over a non-empty star-free base |
| HostChecks.AsPatternMeaning | src/ssrfguard/_policy.py:896-927 | an ASCII entry, trimmed and undotted, is taken in lower case if and only if it is not empty, not every host, and has no star but a whole leftmost label |
| Resolving.AddressesFrom | src/ssrfguard/_resolve.py:116-131 | the rows become endpoints without repeats, and any unreadable row stops it |
| Resolving.Resolve | src/ssrfguard/_resolve.py:241-285 | exactly one lookup is made and the result is a function of that one answer |
| Resolving.ResolveMeaning | src/ssrfguard/_resolve.py:248-285 | under `reject` a name resolves exactly when all rows are readable and permitted, under `drop` when some are permitted; everything permitted is returned and nothing else, never empty |
| Resolving.ResolveFailures | src/ssrfguard/_resolve.py:248-285 | refused, unresolvable, not an address and an exception passed on, each if and only if the answer is of its kind |
| Resolving.ResolveKeepsOrder | src/ssrfguard/_resolve.py:107-110 | addresses keep the resolver's order, each at its first mention |
| Connecting.Kernel.OpenOne | src/ssrfguard/_connect.py:102-123 | one attempt dials the answer's own socket address or nothing, and either leaves exactly its socket open with the peer confirmed, or leaves none |
| Connecting.Connect | src/ssrfguard/_connect.py:223-248 | no socket before every address passes; then the log grows by exactly the socket addresses of a prefix within the cap, in order, one socket each; the end is what the sockets met; and exactly one more socket is open on return and none on any raise |
| Connecting.EndMeaning | src/ssrfguard/_connect.py:227-248 | by the first failing call of each socket: a timeout if and only if every attempt within the cap times out first, an error if and only if each times out or raises OSError and one does, with the addresses beyond the cap counted; otherwise what the first attempt not failed over from comes to |
| Connecting.StepMeaning | src/ssrfguard/_connect.py:102-123 | what one attempt comes to is its first failing call, in order, and with none failing its peer |
| Connecting.TryEach | src/ssrfguard/_connect.py:228-248 | the failover loop dials what its steps say, in order, and nothing else |
| Connecting.DialsArePermitted | src/ssrfguard/_connect.py:100-117 | no network makes `connect` dial a refused address if and only if every socket address within the cap is permitted itself |
| Connecting.CheckedOneDialledOther | src/ssrfguard/_connect.py:223-226 | for any permitted and any refused address there is a list that passes the check with the one and dials the other |
| Connecting.LoopbackIsDialled | src/ssrfguard/_connect.py:223-226 | under the shipped table such a list checks 8.8.8.8 and dials 127.0.0.1 |
| Connecting.OutcomeMeaning | src/ssrfguard/_connect.py:228-248 | over the steps of a run: success at the first not failed over from; a timeout if and only if every step is one; a mismatch or an exception of its own ends the run |
| Clients.ConnectTcp | src/ssrfguard/httpx.py:449-470 | the pin over a whole run: at most one lookup, the log grows by exactly the tried prefix of what that answer allows, every entry of it leads to a permitted endpoint of that answer, and a returned stream's confirmed peer is one of them |
| Clients.SyncEndMeaning | src/ssrfguard/httpx.py:449-470 | how a blocking call ends, by the answer and then by the sockets, one condition for each end |
| Clients.OriginMeaning | src/ssrfguard/httpx.py:225-262 | an origin passes if and only if its port is allowed and, when hosts are listed, its labels match one |
| Clients.PinnedFit | src/ssrfguard/_resolve.py:116-131 | everything one answer allows is permitted, and the socket address that will be dialled is the address that was checked |
| Clients.FirstReachable | src/ssrfguard/httpx.py:1062-1107 | the asynchronous failover loop dials exactly the addresses its steps say, in order, ends as they say, and leaves at most the returned socket open |
| Clients.AsyncConnectTcp | src/ssrfguard/httpx.py:1008-1023 | one lookup, then the log grows by exactly the tried prefix of what it allows, every entry of it permitted |
| Clients.AnyioRunMeaning | src/ssrfguard/httpx.py:1062-1107 | how an asynchronous run ends, by the first failing call of each connection, its options and its peer |
| Clients.AnyioEndMeaning | src/ssrfguard/httpx.py:1008-1044 | how an asynchronous call ends, by the answer and then by the sockets |
| Clients.AsyncPin | src/ssrfguard/httpx.py:1008-1107 | an asynchronous stream is to a permitted answer, with its peer confirmed whenever the stream knows its remote address |
| Clients.AlikeIsExact | src/ssrfguard/httpx.py:1067-1096 | one attempt is the same step on both backends if and only if no option fault, getpeername fault or missing remote address parts them |
| Clients.ClientsAgree | src/ssrfguard/httpx.py:1025-1044 | both backends make the same attempts, step for step, if and only if every attempt made is alike; and then, without a timeout or OSError of the resolver's own, they end alike |
| Clients.LogsAgree | src/ssrfguard/httpx.py:1066-1071 | what the two backends add to their logs never leads to different places on one attempt, and agrees from end to end if and only if they make as many attempts and no option fault stops a connect call on one side alone |
| Clients.AlikeRunsDialAlike | src/ssrfguard/httpx.py:1025-1044 | when every attempt made is alike and no option fails, both logs lead to the same places |
| Clients.OptionFaultParts | src/ssrfguard/httpx.py:1085-1095 | an option fault on a good connection is a connection error on one backend and raised as is by the other |
| Clients.ResolverFaultParts | src/ssrfguard/httpx.py:1013-1017 | of exceptions raised by the resolver, only those that are no OSError end alike on both |
| Redirects.FetchChain | src/ssrfguard/httpx.py:333-347 | a chain sends at most max_redirects + 1 requests, makes at most that many lookups and that many times the attempt cap sockets, dials nothing but permitted addresses, and ends as its hops and the server say |
| Redirects.ChainEndUnique | src/ssrfguard/httpx.py:333-347 | the hops and the server leave a chain exactly one end and one number of requests |
| Redirects.FollowedToTheEnd | src/ssrfguard/httpx.py:861-882 | a chain whose hops connect and whose first final response is the k-th within the cap is fetched with exactly k + 1 requests |
| Watch.RebindingWatch.Call | src/ssrfguard/_observer.py:237-273 | after each address decision the map holds exactly the hosts the history says; nothing but `also_seen` of what is passed on ever changes, and it holds, for a refusal of a remembered host's address, exactly the others permitted since it became resident, each once and in first-seen order |
| Watch.ForwardedReports | src/ssrfguard/_observer.py:255-273 | what is passed on reports exactly that of the history |
| Watch.OneIsReported | src/ssrfguard/_observer.py:263-273 | after one permit, a refusal of another address within the window names the one permitted |
| Watch.AddressesMeaning | src/ssrfguard/_observer.py:275-287 | what is remembered for a host are exactly the distinct addresses permitted since it last became resident, in first-seen order |
| Watch.AlsoSeenMeaning | src/ssrfguard/_observer.py:272-272 | the other addresses of a host are exactly those permitted since it last became resident, each once, in first-seen order |
| Watch.PermitAgrees | src/ssrfguard/_observer.py:275-289 | moving the host to the end and evicting down to the capacity keeps the map the closed form of the longer history |
| Watch.ForgetAgrees | src/ssrfguard/_observer.py:291-299 | dropping what left the window keeps it so |
| Watch.RefusalAgrees | src/ssrfguard/_observer.py:263-273 | a refusal leaves it so |
| Watch.ExpiryTakesAPrefix | src/ssrfguard/_observer.py:291-299 | what expires is always the front of the map |
| Watch.HostsBehind | src/ssrfguard/_observer.py:283-289 | behind an entry stand exactly the other hosts permitted since its own last permit |
| Watch.EvictionAgrees | src/ssrfguard/_observer.py:288-289 | evicting from the front keeps exactly the hosts that fewer than `capacity` others follow |

## Left out

- Hosts.NamesAreAskable: is stated for ASCII hosts, because punycode may lengthen a host past the 253 characters checked before it.
- ResolverBounds.ForgeriesChangeNothing: assumes the inbox is ordered by arrival and that parsing takes no time.
- Clients.ClientsAgree: says when the two runs are one run and that then they end alike; runs that differ can still end alike by chance.
- Hosts.CheapTestAgrees: the colon in IPv6 text is taken as part of what `ip_address` reads, since that parser is a parameter.
- The nameservers' port: it is not validated when a resolver is built, and one past 65535 makes the connect call raise
  OverflowError, which is not caught; the model has no ports here.
- A UDP send takes no time in the model; it runs before any timeout is set on its socket.
- Real sockets, TLS, anyio threads and the resolver-slot limiter: only their outcomes, order and count appear.
- `urlsplit`, the scheme, userinfo, port-in-URL and length checks of a URL: easy members; a host arrives already split.
- The `idna` codec and IPv6 text: parameters of the host functions.
- IPv6 scope identifiers in addresses: two addresses that differ only in scope are one address here.
- Row names, RFC numbers and notes, `reason` strings and every other wording.
- httpx's own redirect limit, its pools and retries; each hop is taken as one fresh connection.
- The header stripping on redirects, proxies, unix sockets, and the requests adapter: wiring over libraries.
- Observer records other than what `RebindingWatch` reads and writes, and the swallowing of sink exceptions.
- Constructors' field validation beyond the preconditions it gives; `nameservers_from_resolv_conf`; `records` with TTLs kept.
- Thread interleavings on `RebindingWatch`: one caller.
