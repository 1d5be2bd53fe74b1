# Verified model of nyasniproxy

nyasniproxy is a loopback proxy. It accepts HTTP and TLS connections on a loopback address, reads just
enough of each to learn its destination (the Host header, or the server name of the TLS ClientHello),
opens a tunnel to that destination through a configured upstream proxy (HTTP CONNECT, HTTPS CONNECT or
SOCKS5, with fallbacks), replays the bytes it read and relays both directions. A managed block in the hosts
file points the routed names at the proxy, and the configuration is re-read while the program runs.

This project models that behaviour in Dafny and proves what the program is for:

- **Transparency.** For every way the network cuts both streams, every choice of the `select!` loop, every
  failure and every fallback, the proxy that was chosen is sent its handshake and then a prefix of exactly what
  the client sent, the client is sent a prefix of exactly what follows the proxy's reply, and both are whole
  when the relay succeeds (`Tunnel`).
- **Sniffing.** The ClientHello parser accepts exactly a printed grammar with slack, serialized ClientHellos
  read back, the Host header is found exactly where the code promises it, answers never change as bytes arrive, the
  caps on both readers are exact, and a client that names a target within them is served (`Tls`, `TlsReader`, `Http`,
  `Targets`). The text primitives below them are pinned to Unicode and to base ten (`Encoding`).
- **Handshakes.** A SOCKS5 script decodes for every host that fits its length field; a CONNECT request reads back as
  its target exactly when the host has no line break, survives printing and does not start with white space, and its
  lines and credentials are what a proxy that follows the standards reads; the replies that open a tunnel are exactly
  those of the standards, they are consumed to the byte, and over-read bytes are put back (`Proxy`, `Handshakes`,
  `Base64`).
- **Hosts file.** Later blocks absorb earlier ones in every layout of marks, syncing converges, and the cases in
  which it does not behave as documented are found exactly (`Hosts`).
- **Routing and reloads.** The table routes as documented, equal fingerprints mean equal tables, what depends on
  hash-map iteration order is found exactly, every result a fetch can have is tied to the steps that cause it, and
  after any run of reloads, with fetches that time out at any moment, the process serves the newest accepted
  configuration that it could publish (`Routing`, `Canonicity`, `Listing`, `Limiter`, `Fetches`, `Reload`).
- **Watchdog.** No false alarm and no missed stall, with beats and polls interleaved step by step (`Watchdog`).

Modelling choices:

- A Rust `String` is a Dafny `string` with one character per UTF-8 byte; the wire is `seq<byte>`.
- A connection is a `Streams.Stream`: all bytes the peer will ever send, an arbitrary plan that cuts them into
  reads and may fail any of them, and an arbitrary point at which writes start to fail. Timeouts around reads and
  handshakes are such failures. An HTTPS proxy is the decrypted byte stream.
- Time in the relay is a parameter: when each read becomes ready, and how late the loop may notice; a write may take
  any time.
- A hash map is its list of entries in the order this instance iterates them; insertion-ordered lists are read by
  `Tables.Last`, so colliding keys behave as they do in the program.
- The final 64-bit value of the fingerprint is taken to tell token feeds apart; no claim is made about SipHash.
- Methods that loop over changing state are methods proved against functions; the functions carry the properties.
  Atomics and threads are a state machine whose atomic steps may interleave in any order.

Where the code and its documentation or the protocol differ, the model follows the code and the difference is proved:

- The repository's own documentation (`README.md:82`) says the rest of the hosts file is left unchanged.
  `Hosts.RestIsKeptExactly` shows that this holds exactly when no begin mark strays before the block, as one quoted in
  a comment does, and, unless nothing follows the block, it is closed and no end mark strays before it. A stray begin
  mark drops what stands between it and the block; an unclosed block or a stray end mark drops all that follows, which
  for an unclosed block is what the tests ask for (`src/hosts.rs:176-188`). Inputs: `Hosts.StrayBeginDropsALine`,
  `Hosts.UnclosedBlockDropsALine` and `Hosts.StrayEndDropsALine`.
- A second sync is not always idle: `Hosts.SecondSyncIsIdleExactly` shows that it changes the file exactly when the
  text has no begin mark and no CRLF and ends in a lone carriage return. Input: `Hosts.LoneReturnIsSyncedTwice`.
- A ClientHello may be cut into several TLS records (section 5.1 of RFC 8446). `Fragments.FoundExactlyInOneRecord`
  shows that its host is found exactly when there is one record. Otherwise it is refused as no ClientHello when the
  first record holds fewer than four bytes of it, and waited for without an answer when it holds at least four
  (`Fragments.FragmentedHelloIsNeverFound`). Input: `Fragments.CutExampleIsNotFound`.
- A TLS server name may hold any UTF-8, and the CONNECT request prints it as it is.
  `Proxy.ConnectRequestNamesTarget` shows for which hosts the request is one head and still names its target. Input:
  `Proxy.LineBreakEndsTheHead`, a name with a line break that ends the head in the middle of the host.
- A username with a colon is sent as it is, and a proxy reads it as a shorter user and a longer password:
  `Handshakes.CredentialsReadBackExactly`.
- A bracketed host, or a host with both a colon and a closing bracket, does not survive printing and parsing:
  `Targets.RoundTripExactlyWhenPrintable`. Inputs: `Targets.BracketsAreLost` and `Targets.InnerBracketCloses`.
- Rule keys are compared without case but are distinct map keys with it: `Canonicity.RoutesAreCanonicalExactly`,
  `Canonicity.FeedIsCanonicalExactly` and `Listing.HostnamesAreCanonicalExactly` show exactly when that makes the
  routes, the fingerprint and the listed spellings depend on hash-map iteration order. Input:
  `Listing.CollisionDependsOnOrder`.

Run `dafny verify dfyconfig.toml` to check the project.

## Model

| member | source | states |
|---|---|---|
| `Tls.ParseTlsSni` | src/tls.rs:39-63 | the chain of checks and slices gives the parser's answer, the function the theorems below are about |
| `Tls.ParseClientHelloBody` | src/tls.rs:65-122 | the advancing cursor reads session id, ciphers, compression and extensions as the answer function does |
| `Tls.ParseExtensions` | src/tls.rs:104-122 | the extension loop stops at the first type-0 extension and decides by it |
| `Tls.ParseSniExtension` | src/tls.rs:124-162 | the name-list loop decides by the first type-0 name |
| `Tls.PrintedLayoutIsFound` | src/tls.rs:39-162 | every buffer printed from the grammar, slack included, is accepted with exactly its host |
| `Tls.FoundBufferHasLayout` | src/tls.rs:39-162 | every accepted buffer decomposes into the grammar: complete non-type-0 extensions and names before the ones read, unread bytes only where the layout names them |
| `Tls.AcceptsExactlyTheGrammar` | src/tls.rs:39-162 | the parser answers Found(h) if and only if the buffer is printed from a valid layout with host h |
| `Tls.SerializedHelloIsFound` | src/tls.rs:199-250 | for every ClientHello that fits one record, serializing it and appending anything finds the first host_name of its first server_name extension, and no strict prefix answers |
| `Tls.SerializedHelloWithoutSni` | src/tls.rs:183-190 | a ClientHello without a server_name extension is refused as such, whatever follows |
| `Tls.AnswerIsStable` | src/tls.rs:39-63 | once the parser answers Found or Invalid, more bytes never change the answer |
| `Tls.HopelessExactlyWhenSpanning` | src/tls.rs:45-60 | the buffers no continuation gets an answer for are exactly those whose record announces at least four bytes, starts with a ClientHello and holds less than that announces |
| `Fragments.FragmentedHelloIsNeverFound` | src/tls.rs:45-63 | every ClientHello cut in any way into more than one record is never found, whatever follows: refused if the first fragment is shorter than four bytes, waited for without end otherwise |
| `Fragments.FoundExactlyInOneRecord` | src/tls.rs:39-162 | a ClientHello that names a host, sent in any non-empty fragments, is found with that host if and only if there is one |
| `Fragments.FragmentedHelloGetsNoTarget` | src/tls.rs:9-30 | under no chunking does a connection that starts with a fragmented ClientHello get a target |
| `Fragments.CutExampleIsNotFound` | src/tls.rs:45-63 | one concrete message: found whole, refused when cut after three bytes, waited for when cut after four |
| `Fragments.HelloOnTheWire` | src/tls.rs:39-162 | one record written out byte by byte, with any version and random and anything after it, is found with its host |
| `Streams.AccumulateKeepsBytes` | src/http.rs:15-32 | the read-append-decide loop shared by the three readers loses and reorders nothing, and decides at most one chunk after an undecided buffer |
| `TlsReader.ReadHttpsTarget` | src/tls.rs:9-30 | the growing-buffer loop computes the reading function on every plan of reads and failures |
| `TlsReader.ShortStreamsGetTheParsersAnswer` | src/tls.rs:9-30 | for streams within the cap the result is what the parser says of the whole stream, under every chunking |
| `TlsReader.AcceptedHelloIsOfTheStream` | src/tls.rs:9-30 | any success names the host found in the whole stream, and read plus unread bytes are the stream |
| `TlsReader.HelloBounds` | src/tls.rs:9-30 | answers needing at most 64513 bytes never hit the cap under any chunking, and answers needing more than 65536 always do; both directions |
| `TlsReader.EarlyHelloGetsItsTarget` | src/tls.rs:9-30 | a name whose ClientHello ends by byte 64513 is found, with port 443, under every chunking of a failure-free stream of any length |
| `Http.ReadUntilHeaderEnd` | src/http.rs:15-32 | the loop computes the reading function on every plan of reads and failures |
| `Http.ReadHttpTarget` | src/http.rs:9-13 | reading and parsing in sequence, with what was read returned for replay |
| `Http.HeadIsOfTheStream` | src/http.rs:15-36 | the bytes read are a prefix of the stream whose head ends where the stream's does |
| `Http.HeadBounds` | src/http.rs:15-32 | with the first blank line ending at byte N, all chunkings succeed iff N <= 65537 and some does iff N <= 65536 plus the chunk (1024 for requests, 512 for CONNECT replies) |
| `Http.HttpTargetIsOfTheStream` | src/http.rs:9-55 | the target does not depend on the chunks: it is the one the whole stream names |
| `Http.SmallRequestsGetTheParsersAnswer` | src/http.rs:9-32 | under every chunking of a failure-free stream, a request whose head ends by byte 65537 gets the parser's target, or is rejected with the parser's reason |
| `Http.TargetsExactly` | src/http.rs:38-55 | of all buffers, accepted as a target if and only if the bytes before the first blank line are UTF-8 and the first line after the start line whose trimmed lower-case name is host has a value that parses to it, by default with port 80 |
| `Http.SameHeadSameHost` | src/http.rs:38-55 | bytes after the blank line never change the target |
| `Http.HeadParses` | src/http.rs:34-55 | a head printed from non-empty UTF-8 lines ends where its last line does and is searched line by line |
| `Http.RequestGoesToFirstHost` | src/http.rs:38-55 | a request of UTF-8 lines goes to its first Host header, whatever else it contains |
| `Http.HostNamesExactly` | src/http.rs:42-51 | a header name is host exactly when, without the white space around it, it is those four letters in either case |
| `Http.RequestWithoutPort` | src/http.rs:38-55 | a request whose Host header has a plain host and no port goes to that host on port 80 |
| `Http.RequestForTarget` | src/http.rs:38-55 | in any well-formed request, a first Host header with a printed target reaches that target if and only if the host is printable, has no line break and, unless brackets protect it, does not start with white space |
| `Http.HostsHaveNoLineBreak` | src/http.rs:42-51 | no input makes the parser return a host with a line break |
| `Targets.RoundTripExactlyWhenPrintable` | src/target.rs:9-52 | for every port and default, parsing a printed target gives it back if and only if the host neither opens a bracket nor has both a colon and a closing bracket |
| `Targets.HostWithoutPort` | src/target.rs:9-44 | a value without colon or bracket is a host with the default port |
| `Targets.HostWithPort` | src/target.rs:31-38 | a host and a port around the only colon: the port read as 16 bits, or refused |
| `Targets.HostWithColons` | src/target.rs:31-44 | a value with several colons, or one at its end, is a host as a whole with the default port |
| `Targets.ParseBracketed` | src/target.rs:14-29 | a bracketed value: the host up to the first closing bracket, then nothing, a port, or a refusal |
| `Targets.UnclosedBrackets` | src/target.rs:14-17 | an opening bracket without a closing one is refused |
| `Targets.EmptyValue` | src/target.rs:9-12 | an empty value is refused |
| `Targets.PrintedTargets` | src/target.rs:46-52 | brackets are printed around exactly the hosts with a colon that do not open with one |
| `Targets.BracketsAreLost` | src/target.rs:9-52 | a bracketed host that does not round trip |
| `Targets.InnerBracketCloses` | src/target.rs:9-52 | an address with a closing bracket inside that does not round trip |
| `Targets.HostnamesAreDottedLabels` | src/target.rs:54-72 | the accepted hostnames, position by position: at most 253 characters, labels of 1 to 63 that start and end alphanumeric |
| `Targets.AlphanumericExactly` | src/target.rs:61-72 | the alphanumeric characters, by code |
| `Strings.SplitOfJoin` | src/http.rs:42-42 | splitting undoes joining when no part contains the separator |
| `Strings.JoinOfSplit` | src/http.rs:42-42 | joining undoes splitting, for every text |
| `Strings.ParseU16OfDecimal` | src/target.rs:9-52 | reading a printed number back as 16 bits gives it exactly when it fits |
| `Encoding.ParseU16Exactly` | src/target.rs:31-38 | digits, after a plus sign or not, are read as their base-ten positional sum if that fits 16 bits |
| `Encoding.ParseU16Refuses` | src/target.rs:31-38 | nothing, a lone plus sign and every other character are refused |
| `Encoding.DecimalIsPositional` | src/target.rs:31-38 | the value of a digit string is its base-ten positional sum |
| `Encoding.CommonPorts` | src/target.rs:31-52 | 443 and 80 are printed and read as such |
| `Encoding.BigEndian` | src/proxy.rs:241-241 | two and three bytes are put and read with the highest first |
| `Encoding.ValidUtf8Exactly` | src/http.rs:40-40 | bytes are UTF-8 exactly when they are a sequence of encodings of Unicode scalar values, none of them overlong |
| `Encoding.WhiteSpaceExactly` | src/http.rs:46-47 | the characters trimmed are exactly those of Unicode White_Space, by code point |
| `Encoding.EndWhiteSpace` | src/http.rs:46-47 | the same ones are found at the end of a text, whatever precedes them |
| `Encoding.LetterCase` | src/router.rs:27-27 | lower-casing maps the 26 letters A to Z, spelled out, and no other character |
| `Proxy.ConnectRequestNamesTarget` | src/proxy.rs:163-171 | for every UTF-8 host and every port the request is one head if and only if the host has no blank line, and reads back as its target if and only if the host is printable, has no line break and, unless brackets protect it, does not start with white space |
| `Proxy.LineBreakEndsTheHead` | src/proxy.rs:163-171 | a UTF-8 host whose request ends in the middle of it and is not read back |
| `Proxy.StatusIsSecondWord` | src/proxy.rs:173-184 | a printed reply opens the tunnel if and only if the second word of its first line is 200, whatever the version, phrase, headers and following bytes, and then ends with its head |
| `Proxy.ReadConnectResponse` | src/proxy.rs:273-297 | the split of the accumulated reply is the reading function's |
| `Proxy.OverReadIsLossless` | src/proxy.rs:273-297 | under every chunking the left-over bytes followed by the unread ones are exactly those after the first blank line |
| `Proxy.HttpConnect` | src/proxy.rs:159-185 | at most the request was sent, all of it on success; success leaves exactly what follows the reply; a reliable stream whose reply opens a tunnel within the cap succeeds |
| `Proxy.SocksNegotiate` | src/proxy.rs:194-230 | exactly the greeting, and the credentials only when asked for, are sent; exactly the method reply and the optional status are consumed |
| `Proxy.SocksAuthenticate` | src/proxy.rs:203-220 | succeeds on a reliable stream if and only if both lengths fit a byte and the status is 1, 0 |
| `Proxy.SocksReadReply` | src/proxy.rs:244-264 | consumes one complete connect reply of any address type, and on a failure-free stream succeeds if and only if there is one |
| `Proxy.Socks5Connect` | src/proxy.rs:194-265 | on success the next unread byte is the first tunnel byte and exactly the script was sent; converse on reliable streams |
| `Proxy.PrefixedStream.Read` | src/proxy.rs:330-353 | reads deliver what remains in order, and while prefix bytes remain neither end nor fail nor touch the stream |
| `Proxy.Connect` | src/proxy.rs:93-157 | whichever proxy kind, success leaves a stream whose remaining bytes are exactly those after the handshake reply |
| `Handshakes.ConnectRequestLines` | src/proxy.rs:163-171 | for every host without a line break the head sent splits into the request line, the Host header, the keep-alive header and, exactly when a user is configured, the credentials line |
| `Base64.DecodeOfEncode` | src/proxy.rs:187-192 | an independent reader of base64 (section 4 of RFC 4648) gives every byte string back |
| `Base64.Alphabet` | src/proxy.rs:187-192 | the digits are those of section 4 of RFC 4648, in its order |
| `Base64.Vectors` | src/proxy.rs:187-192 | the test vectors of one, two and three bytes of section 10 of RFC 4648 |
| `Handshakes.CredentialsReadBackExactly` | src/proxy.rs:187-192 | a proxy that follows section 2 of RFC 7617 recovers the username and the password if and only if the username has no colon |
| `Handshakes.HttpOpensExactly` | src/proxy.rs:173-184 | of all replies, an HTTP proxy opens the tunnel with exactly those whose bytes before the first blank line are UTF-8 and whose first line has 200 as its second word between Unicode white space; the tunnel starts right after the blank line |
| `Handshakes.ConnectReplyBounds` | src/proxy.rs:273-297 | a reply whose blank line ends at byte N is read under all chunkings iff N <= 65537 and under some iff N <= 66048 |
| `Handshakes.SocksScriptDecodes` | src/proxy.rs:194-242 | a reference server (sections 3 and 4 of RFC 1928, section 2 of RFC 1929) recovers methods, username, password, host and port from the handshake and finds tunnel bytes right after it |
| `Handshakes.ReplyIsMeasured` | src/proxy.rs:194-264 | every reply printed from those standards (methods 0 and 2, address types 1, 3 and 4) is measured to the byte, whatever tunnel bytes follow |
| `Handshakes.PartsOfRepliesFail` | src/proxy.rs:194-264 | no strict prefix of such a reply opens the tunnel |
| `Handshakes.OtherConnectRepliesFail` | src/proxy.rs:244-264 | a connect reply with another version, a code other than success, another address type, or fewer than seven bytes is refused |
| `Handshakes.SocksOpensExactly` | src/proxy.rs:194-264 | of all replies, a SOCKS5 proxy opens the tunnel with exactly the printed ones: another version, method, code or address type, a failed authentication and a cut reply do not |
| `Handshakes.HandshakeFitsExactly` | src/proxy.rs:159-265 | which handshakes succeed for certain on a connection that does not break: the reply opens the tunnel, SOCKS5 host, username and password have at most 255 bytes, an HTTP reply ends by byte 65537 |
| `Tunnel.FromClient` | src/main.rs:523-533 | one branch of the select moves a chunk, passes the end on once everything was written, or fails |
| `Tunnel.FromTunnel` | src/main.rs:534-545 | the other branch, over bytes put back and unread |
| `Tunnel.CopyBidirectional` | src/main.rs:498-551 | in every run each side has received a prefix of the other, a side is shut down only when whole, Ok carries both exact counts; for every timing of reads it ends at most the timeout after its last transfer, give or take how late it may notice, an idle error means that no open direction had a read ready in time, and two silent peers always end in one |
| `Tunnel.Attempt` | src/router.rs:141-149 | one attempt says at most its handshake, and succeeds when its hop can open a tunnel |
| `Tunnel.ConnectWithFallback` | src/router.rs:139-151 | the hop chosen is the first that opens a tunnel: earlier ones could not and heard at most a handshake, later ones are untouched |
| `Tunnel.Sniff` | src/main.rs:464-475 | the bytes kept for replay followed by the unread ones are the client's stream, and the target is the one that stream names; a reliable client whose stream names one within the reader's bounds gets it |
| `Tunnel.ServeTunnel` | src/main.rs:484-496 | replaying and relaying is transparent, sniffed bytes included once and in order |
| `Tunnel.ForwardTo` | src/main.rs:477-496 | route, connect, replay and relay in sequence are transparent through the hop that served |
| `Tunnel.HandleConnection` | src/main.rs:459-496 | end to end: a reliable client whose stream names a target within the exact bounds is not refused, the target is the one the client's whole stream names, the hop is the first of its route that can open a tunnel, and the connection is transparent; only an idle timeout can end a reliable one early, and silent peers always meet it |
| `Tables.SortSorts` | src/router.rs:123-131 | the sort by key yields the same entries in order |
| `Tables.LeExactly` | src/router.rs:123-131 | keys are compared as Rust compares strings: the first different byte decides, and a prefix comes first |
| `Tables.LastOfSort` | src/router.rs:130-131 | the sort is stable enough that the winning entry of a key stays the winner |
| `Tables.SortIsCanonical` | src/router.rs:123-131 | the sorted list does not depend on iteration order when keys determine entries |
| `Routing.TrimDots` | src/router.rs:27-27 | exactly the trailing dots are removed |
| `Routing.FromYaml` | src/router.rs:43-98 | the two loops over the maps compute the table, the hostname list and the fingerprint feed |
| `Routing.RoutingFingerprint` | src/router.rs:121-137 | the hasher is fed the sorted proxies, then the sorted lower-cased rules |
| `Routing.FeedOfOne` | src/router.rs:121-137 | the tokens fed for one proxy and one rule, in order |
| `Routing.TableRoutesAsDocumented` | src/router.rs:26-98 | the configurations accepted are exactly the acceptable ones, and each host gets the last rule for its name modulo case, else the default |
| `Routing.RuleFeedTellsApart` | src/router.rs:132-135 | a rule feed determines the rules |
| `Routing.FeedTellsApart` | src/router.rs:121-137 | a feed determines proxies and rules although the number of proxies is not fed |
| `Routing.SameFeedSameTable` | src/reload.rs:337-339 | accepted configurations with equal feeds route every host alike, even when keys collide modulo case, so skipping publication is sound |
| `Canonicity.FeedIsCanonicalExactly` | src/router.rs:121-137 | the feed is the same for every iteration order if and only if colliding rules list the same proxies |
| `Canonicity.RoutesAreCanonicalExactly` | src/router.rs:26-98 | so are the routes, under the same condition |
| `Canonicity.HostnamesAreTheKeys` | src/router.rs:66-97 | the hostname list is valid, sorted and duplicate-free modulo case, and lower-cased it is exactly the table's key set |
| `Canonicity.ListedNamesRoute` | src/router.rs:26-32 | each listed name, in any case and with any trailing dots, looks up its own rule |
| `Canonicity.LookupsAreNeverEmpty` | src/router.rs:26-98 | every host has at least one hop to try |
| `Listing.FirstSpellingsAreListed` | src/router.rs:66-89 | a name is listed if and only if it is the first spelling of its rule key |
| `Listing.HostnamesAreCanonicalExactly` | src/router.rs:66-97 | acceptance never depends on iteration order, and the hostname list does not if and only if no two rule keys spell one name |
| `Listing.CollisionDependsOnOrder` | src/router.rs:43-98 | one accepted configuration whose fingerprint, routes and listed spelling all depend on the iteration order |
| `Hosts.RenderBlock` | src/hosts.rs:10-25 | the pushes build the marks around the managed line, without a line when there are no names |
| `Hosts.Splice` | src/hosts.rs:38-47 | the text before, the block, a missing newline, the text after |
| `Hosts.AppendBlock` | src/hosts.rs:49-67 | the block is set off by a blank line in the file's own newline |
| `Hosts.AppendedAfterEmptyLine` | src/hosts.rs:49-67 | a text without a begin mark is kept whole, its last line is ended, and the block follows after exactly one more empty line, which ends in CRLF if and only if the text has one; an empty text becomes the block |
| `Hosts.ReplaceManagedBlock` | src/hosts.rs:69-78 | in every layout of marks the result is kept text, block, kept text |
| `Hosts.BlockIsReplaced` | src/hosts.rs:38-47 | a closed block between the literal marks is replaced where it stands, and the text before and after it is unchanged |
| `Hosts.OneLineEndIsSkipped` | src/hosts.rs:27-36 | after the end mark one CRLF or one newline is skipped and nothing more |
| `Hosts.SyncHosts` | src/hosts.rs:114-128 | a new text is written exactly when it differs |
| `Hosts.KeptParts` | src/hosts.rs:69-78 | what is kept before the block has no begin mark, and if it has an end mark nothing is kept after |
| `Hosts.LaterBlockAbsorbsEarlier` | src/hosts.rs:69-78 | for every text, replacing twice is replacing once with the later block |
| `Hosts.HostnamesAreClean` | src/target.rs:54-72 | valid hostnames have no mark character, newline or blank |
| `Hosts.RestIsKeptExactly` | src/hosts.rs:69-78 | in every layout: the text around the block is kept if and only if no begin mark strays before the block and, unless nothing follows it, it is closed and no end mark strays before it; otherwise the text from the stray begin mark to the block, or all that follows, is dropped and nothing else |
| `Hosts.UnclosedBlockDropsALine` | src/hosts.rs:176-188 | a line after an unclosed block that is dropped |
| `Hosts.StrayBeginDropsALine` | src/hosts.rs:69-78 | a line between a comment that quotes the begin mark and the block that is dropped |
| `Hosts.QuotedBeginDropsText` | src/hosts.rs:69-78 | whatever stands between a begin mark in a comment and the block is dropped, and what follows the block is kept |
| `Hosts.StrayEndDropsALine` | src/hosts.rs:69-78 | a line after a closed block that is dropped because an end mark precedes the block |
| `Hosts.NewlineOfSynced` | src/hosts.rs:49-67 | syncing keeps the file's newline convention unless it ended in a lone carriage return |
| `Hosts.SecondSyncIsIdleExactly` | src/hosts.rs:114-128 | a second sync changes nothing if and only if the newline does not flip |
| `Hosts.LoneReturnIsSyncedTwice` | src/hosts.rs:49-67 | a file that the second sync changes again |
| `Hosts.TwoSyncsConverge` | src/hosts.rs:114-128 | from every text two syncs reach a fixed point |
| `Hosts.ManagedLineReadsBack` | src/hosts.rs:14-21 | the managed line split on blanks is the address and exactly the names |
| `Hosts.BlockLines` | src/hosts.rs:10-25 | the block split on its newline is the two marks with the managed line between them |
| `Hosts.EmptyBlock` | src/hosts.rs:10-25 | without names the block is the two marks, each on its line |
| `Hosts.DocumentedBlock` | README.md:84-88 | the documented block, literally |
| `Limiter.CounterCountsGuards` | src/reload.rs:44-83 | in every interleaving of any number of fetches the counter is the number of live guards and never exceeds the maximum or underflows |
| `Limiter.StepKeepsInvariant` | src/reload.rs:53-83 | each atomic step keeps that, and changes the counter by exactly its increment or decrement |
| `Limiter.SlotsComeBack` | src/reload.rs:129-159 | every way a fetch can end brings its slot's release closer, and a timed-out fetch keeps its slot until its thread ends |
| `Limiter.AcquiredSlotsComeBack` | src/reload.rs:123-160 | in every run an acquired slot is given back once its own fetch has made its moves, at most three, whatever others and its caller do, and never twice |
| `Limiter.ResultsAreFinal` | src/reload.rs:153-159 | a returned result is never changed by anything that happens later |
| `Limiter.RefusedExactlyWhenFull` | src/reload.rs:67-83 | a fetch is refused if and only if the guards alive, those of abandoned fetches included, fill every slot |
| `Limiter.AbandonedFetchHoldsItsSlot` | src/reload.rs:129-159 | one run in which a timed-out fetch makes the next be refused until its thread ends |
| `Limiter.QuiescenceFreesAllSlots` | src/reload.rs:53-57 | once everything has ended, each guard taken was given back once and the counter is zero |
| `Limiter.InFlightFetches.Step` | src/reload.rs:44-83 | the shared counter in place, one atomic step at a time |
| `Limiter.InFlightFetches.TryAcquire` | src/reload.rs:67-83 | under interference the retry loop ends in one slot taken or a refusal, and undisturbed it takes one exactly when one is free |
| `Fetches.FetchedExactly` | src/reload.rs:123-160 | in every run and interleaving, a fetch returns a text, or an error, if and only if its own thread ended with it while the caller waited and the caller then received it |
| `Fetches.TimedOutExactly` | src/reload.rs:154-158 | a fetch reports a timeout if and only if the timeout expired while its thread had neither delivered nor dropped its sender |
| `Fetches.DroppedExactly` | src/reload.rs:137-158 | a fetch reports a dropped thread if and only if its thread panicked and dropped its sender while the caller waited, and the caller then noticed |
| `Fetches.RefusedExactly` | src/reload.rs:129-153 | a fetch is refused if and only if it loaded the counter while live guards held every slot, and reports a failed spawn if and only if the spawn failed |
| `Fetches.DeliveredIsReturned` | src/reload.rs:154-159 | once the thread has delivered, nothing that happens before the caller receives it, an expiry included, changes what is returned |
| `Fetches.PanicIsReported` | src/reload.rs:137-158 | a panic whose sender is dropped before any expiry is reported as a dropped thread |
| `Fetches.FreshFetchReturns` | src/reload.rs:123-160 | a new fetch that finds a free slot and is not overtaken returns what its thread delivers |
| `Reload.ReloadKeepsConsistent` | src/reload.rs:274-357 | every reload, whatever fails in it, leaves the published table carrying the fingerprint and the routes of the last accepted configuration |
| `Reload.ListsOnlyNewer` | src/reload.rs:359-372 | syncing newer names leaves no trace of the block an earlier sync wrote |
| `Reload.RunsServeConsistently` | src/main.rs:94-149 | from start-up on, in every run, the process serves if and only if start-up was accepted, and always consistently |
| `Reload.ServesTheLastGood` | src/reload.rs:274-372 | after any run, whatever failed in it, the process routes as the newest accepted configuration that could be published, and the hosts file is what others last wrote to it with the names of the newest configuration synced since, and no others |
| `Reload.UndisturbedServesTheNewest` | src/reload.rs:274-357 | with listening accept loops what is served is the newest accepted configuration, and with a hosts file that only the program writes so is what is synced |
| `Reload.ListedNamesAreServed` | src/reload.rs:274-372 | in every run each name in the hosts file is served by its own rule if the configuration served has one and by the default otherwise, and has one whenever that configuration is the one last synced |
| `Reload.RunsFollowResults` | src/reload.rs:123-160 | in every interleaving of fetch threads, timeouts and reloads the process is where the results consumed put it, and those stay what the fetches returned |
| `Reload.AcceptedExactly` | src/reload.rs:274-330 | a fetch result is taken up if and only if it is a text that reads as an acceptable configuration |
| `Reload.ResultsAreDelivered` | src/reload.rs:123-160 | in every run of the whole system a result consumed is a text if and only if the thread of that fetch ended with it while its caller waited, and a timeout if and only if that came first |
| `Reload.DeliveredIsServed` | src/reload.rs:123-357 | a text delivered, received and consumed, with any steps of other fetches in between, is served if it reads as an acceptable configuration, with its documented routes and its names in the hosts file, and otherwise changes neither the table nor the last configuration |
| `Reload.LateTextsAreIgnored` | src/reload.rs:123-160 | two runs that differ only in the texts or errors delivered after their callers returned end in the same state of the whole system |
| `Reload.Reloader.ApplyHosts` | src/reload.rs:359-372 | one sync of the file, or none |
| `Reload.Reloader.ReloadOnce` | src/reload.rs:274-357 | the updates in place, in the code's order and with its early returns, are the step the run theorems are about |
| `Watchdog.Heartbeat.Beat` | src/watchdog.rs:35-38 | a beat stores whole milliseconds, capped at 64 bits |
| `Watchdog.Watch` | src/watchdog.rs:44-66 | with stores of beats anywhere between the load and the clock read of a poll, the loop fires at the first poll that loaded too old a beat, and at no other |
| `Watchdog.BeatingKeepsQuiet` | src/watchdog.rs:35-66 | no false alarm: if some beat was stored before each poll within the limit, less the delay of stores and one millisecond, the watchdog never fires |
| `Watchdog.StallsFire` | src/watchdog.rs:44-66 | no missed stall: it fires at most one poll gap after the limit has passed since the last clock reading of a beat |

## Left out

- Sockets, DNS, TLS handshakes, the durations of timeouts around reads and handshakes, and task scheduling: they are
  plans of reads, failures and dial results; the relay's idle timeout has its duration.
- YAML, URL and command-line parsing, `merge_settings` and fetching itself: a text is read into a configuration, and a
  proxy URL into a proxy, by arbitrary functions that are parameters.
- The file side of `sync_hosts`: `write_atomic`, permissions and rename; a file that cannot be read or written keeps
  its text.
- SipHash: fingerprints are compared as token feeds.
- The accept loop's connection limit and its heartbeat schedule, `watchdog_suicide`, logging and error texts: reasons
  of refusal are kept apart where callers tell them apart, and are otherwise abbreviated.
- File-watch events and the poll interval: a run is any sequence of reloads.
- Zero-length read buffers on `PrefixedStream`, which the program never uses.
- `Tunnel.CopyBidirectional`: bytes are counted without the 64-bit wrap-around of the counters, and a write that never
  completes is not modelled, because each step of the loop ends.
- `Limiter.CounterCountsGuards`: the counter is unbounded, because it is at most the maximum.
