/** Both ends of a proxy handshake: what a proxy that follows the standards reads from the
    client, and which replies of such a proxy open the tunnel. */
module Handshakes {
  import opened Wrappers
  import Base64
  import opened Bytes
  import opened Search
  import opened Streams
  import opened Strings
  import opened Targets
  import opened Http
  import opened Proxy

  // ---------------------------------------------------------------- SOCKS5 replies

  /** BND.ADDR of section 6 of RFC 1928. */
  datatype Bound = V4(address: seq<byte>) | Domain(name: seq<byte>) | V6(address: seq<byte>)

  /** A successful handshake of a SOCKS5 proxy: whether it asks for the password, and the bound
      address and port of its connect reply. */
  datatype SocksReply = SocksReply(asks: bool, reserved: byte, bound: Bound, port: seq<byte>)

  predicate BoundFits(bound: Bound) {
    match bound
    case V4(address) => |address| == 4
    case Domain(name) => |name| <= 255
    case V6(address) => |address| == 16
  }

  function PrintedBound(bound: Bound): seq<byte>
    requires BoundFits(bound)
  {
    match bound
    case V4(address) => [1] + address
    case Domain(name) => [3, |name| as byte] + name
    case V6(address) => [4] + address
  }

  /** Section 6 of RFC 1928. */
  function PrintedConnect(reserved: byte, bound: Bound, port: seq<byte>): seq<byte>
    requires BoundFits(bound)
  {
    [5, 0, reserved] + (PrintedBound(bound) + port)
  }

  /** Section 3 of RFC 1928 and section 2 of RFC 1929. */
  function PrintedMethod(asks: bool): seq<byte> {
    if asks then [5, 2, 1, 0] else [5, 0]
  }

  function Printed(r: SocksReply): seq<byte>
    requires BoundFits(r.bound)
  {
    PrintedMethod(r.asks) + PrintedConnect(r.reserved, r.bound, r.port)
  }

  /** The reply is well formed, and the proxy asks only a client that offered a password. */
  predicate Acceptable(proxy: ProxyConfig, r: SocksReply) {
    BoundFits(r.bound) && |r.port| == 2 && (r.asks ==> proxy.username.Some?)
  }

  /** Every printed connect reply is measured to the byte, whatever follows it. */
  lemma ConnectReplyIsMeasured(reserved: byte, bound: Bound, port: seq<byte>, tunnel: seq<byte>)
    requires BoundFits(bound) && |port| == 2
    ensures var reply := PrintedConnect(reserved, bound, port);
      SocksConnectLength(reply + tunnel) == Some(|reply|)
  {
    var reply := PrintedConnect(reserved, bound, port);
    var b := reply + tunnel;
    assert b[..3] == [5, 0, reserved] && b[0] == b[..3][0] && b[1] == b[..3][1];
    assert b[3] == PrintedBound(bound)[0];
    if bound.Domain? {
      assert b[4] == PrintedBound(bound)[1];
    }
  }

  /** What a measured connect reply announces. */
  function BoundOf(b: seq<byte>, n: nat): Bound
    requires 7 <= n <= |b|
  {
    if b[3] == 1 then V4(b[4..n - 2]) else if b[3] == 4 then V6(b[4..n - 2]) else Domain(b[5..n - 2])
  }

  lemma CutInFour<T>(s: seq<T>, i: nat, j: nat, k: nat, n: nat)
    requires i <= j <= k <= n <= |s|
    ensures s[..n] == s[..i] + (s[i..j] + s[j..k] + s[k..n])
  {
  }

  lemma MeasuredConnectIsPrinted(b: seq<byte>, n: nat)
    requires SocksConnectLength(b) == Some(n)
    ensures 7 <= n <= |b| && BoundFits(BoundOf(b, n))
    ensures b[..n] == PrintedConnect(b[2], BoundOf(b, n), b[n - 2..n])
  {
    var bound := BoundOf(b, n);
    var start := if bound.Domain? then 5 else 4;
    assert b[3..start] == if bound.Domain? then [3, b[4]] else [b[3]];
    assert PrintedBound(bound) == b[3..start] + b[start..n - 2];
    assert b[..3] == [5, 0, b[2]];
    CutInFour(b, 3, start, n - 2, n);
  }

  /** Another version, a code other than success and another address type are refused. */
  lemma OtherConnectRepliesFail(b: seq<byte>)
    requires |b| < 7 || b[0] != 5 || b[1] != 0 || b[3] !in {1, 3, 4}
    ensures SocksConnectLength(b) == None
  {
  }

  lemma MethodIsMeasured(proxy: ProxyConfig, asks: bool, rest: seq<byte>)
    requires asks ==> proxy.username.Some?
    ensures SocksMethodLength(proxy, PrintedMethod(asks) + rest) == Some(|PrintedMethod(asks)|)
    ensures AsksPassword(proxy, PrintedMethod(asks) + rest) == asks
  {
    var b := PrintedMethod(asks) + rest;
    assert b[0] == 5 && b[1] == if asks then 2 else 0;
    if asks {
      assert b[2..4] == [1, 0];
    }
  }

  /** The whole reply is measured to the byte. */
  lemma ReplyIsMeasured(proxy: ProxyConfig, r: SocksReply, tunnel: seq<byte>)
    requires Acceptable(proxy, r)
    ensures SocksReplyLength(proxy, Printed(r) + tunnel) == Some(|Printed(r)|)
    ensures AsksPassword(proxy, Printed(r) + tunnel) == r.asks
  {
    hide SocksConnectLength, SocksMethodLength, AsksPassword, PrintedMethod, PrintedConnect;
    var method0, connect := PrintedMethod(r.asks), PrintedConnect(r.reserved, r.bound, r.port);
    MethodIsMeasured(proxy, r.asks, connect + tunnel);
    ConnectReplyIsMeasured(r.reserved, r.bound, r.port, tunnel);
    Regroup(method0, connect, tunnel);
    assert (method0 + (connect + tunnel))[|method0|..] == connect + tunnel;
  }

  /** What a measured reply says. */
  function ReplyOf(proxy: ProxyConfig, b: seq<byte>, n: nat): SocksReply
    requires SocksReplyLength(proxy, b) == Some(n)
  {
    var m := SocksMethodLength(proxy, b).value;
    MeasuredConnectIsPrinted(b[m..], n - m);
    SocksReply(m == 4, b[m..][2], BoundOf(b[m..], n - m), b[m..][n - m - 2..n - m])
  }

  lemma MeasuredReplyIsPrinted(proxy: ProxyConfig, b: seq<byte>, n: nat)
    requires SocksReplyLength(proxy, b) == Some(n)
    ensures Acceptable(proxy, ReplyOf(proxy, b, n)) && n <= |b| && b[..n] == Printed(ReplyOf(proxy, b, n))
  {
    hide SocksConnectLength, PrintedConnect;
    var m := SocksMethodLength(proxy, b).value;
    MeasuredConnectIsPrinted(b[m..], n - m);
    assert b[..m] == PrintedMethod(m == 4);
    assert b[..n] == b[..m] + b[m..][..n - m];
  }

  /** No part of a reply is enough. */
  lemma PartsOfRepliesFail(proxy: ProxyConfig, r: SocksReply, n: nat)
    requires Acceptable(proxy, r) && n < |Printed(r)|
    ensures SocksReplyLength(proxy, Printed(r)[..n]) == None
  {
    hide SocksReplyLength, Printed;
    var b := Printed(r)[..n];
    if SocksReplyLength(proxy, b).Some? {
      var m := SocksReplyLength(proxy, b).value;
      MeasuredReplyIsPrinted(proxy, b, m);
      var rest := Printed(r)[m..];
      assert Printed(r) + [] == Printed(r) == b[..m] + rest;
      ReplyIsMeasured(proxy, r, []);
      ReplyIsMeasured(proxy, ReplyOf(proxy, b, m), rest);
    }
  }

  /** A SOCKS5 proxy opens the tunnel with exactly the replies the standards print: a method it
      was offered, the password accepted if it asked, success, and an address of a known type.
      The tunnel starts right after such a reply, and no part of it is enough. */
  lemma SocksOpensExactly(proxy: ProxyConfig, reply: seq<byte>, n: nat)
    requires proxy.kind.Socks5?
    ensures ReplyLength(proxy, reply) == Some(n)
       <==> n <= |reply| && exists r: SocksReply :: Acceptable(proxy, r) && Printed(r) == reply[..n]
  {
    hide SocksReplyLength, SocksConnectLength;
    if SocksReplyLength(proxy, reply) == Some(n) {
      MeasuredReplyIsPrinted(proxy, reply, n);
    }
    if n <= |reply| {
      forall r: SocksReply | Acceptable(proxy, r) && Printed(r) == reply[..n]
        ensures SocksReplyLength(proxy, reply) == Some(n)
      {
        ReplyIsMeasured(proxy, r, reply[n..]);
        assert reply == Printed(r) + reply[n..];
      }
    }
  }

  // ---------------------------------------------------------------- the SOCKS5 script

  // Sections 3 and 4 of RFC 1928 and section 2 of RFC 1929, as a server decodes them.

  function DecodeMethods(b: seq<byte>): Option<(seq<byte>, seq<byte>)> {
    if |b| < 2 || b[0] != 5 || |b| < 2 + b[1] as int then None
    else Some((b[2..2 + b[1] as int], b[2 + b[1] as int..]))
  }

  function DecodeAuth(b: seq<byte>): Option<((seq<byte>, seq<byte>), seq<byte>)> {
    if |b| < 2 || b[0] != 1 || |b| < 3 + b[1] as int then None
    else
      var user, rest := b[2..2 + b[1] as int], b[2 + b[1] as int..];
      if |rest| < 1 + rest[0] as int then None
      else Some(((user, rest[1..1 + rest[0] as int]), rest[1 + rest[0] as int..]))
  }

  function DecodeConnect(b: seq<byte>): Option<((seq<byte>, nat), seq<byte>)> {
    if |b| < 5 || b[..4] != [5, 1, 0, 3] || |b| < 7 + b[4] as int then None
    else
      var n := 5 + b[4] as int;
      Some(((b[5..n], U16(b[n], b[n + 1])), b[n + 2..]))
  }

  lemma FourParts(a: seq<byte>, b: seq<byte>, c: seq<byte>, d: seq<byte>)
    ensures a + b + c + d == a + (b + (c + d))
  {
    Regroup(a, b, c + d);
    Regroup(a + b, c, d);
  }

  lemma SocksGreetingDecodes(proxy: ProxyConfig, rest: seq<byte>)
    ensures DecodeMethods(SocksGreeting(proxy) + rest) == Some((if proxy.username.Some? then [0, 2] else [0], rest))
  {
    var greeting := SocksGreeting(proxy);
    var b := greeting + rest;
    var n := |greeting|;
    assert b[0] == greeting[0] && b[1] == greeting[1] && b[2..n] == greeting[2..] && b[n..] == rest;
  }

  lemma SocksAuthDecodes(user: seq<byte>, password: seq<byte>, rest: seq<byte>)
    requires |user| <= 255 && |password| <= 255
    ensures DecodeAuth(SocksAuth(user, password) + rest) == Some(((user, password), rest))
  {
    var b := SocksAuth(user, password) + rest;
    var tail := b[2 + |user|..];
    assert b[2..2 + |user|] == user;
    assert tail == [PutU8(|password|)] + password + rest;
    assert tail[1..1 + |password|] == password && tail[1 + |password|..] == rest;
  }

  lemma SocksRequestDecodes(host: seq<byte>, port: nat, rest: seq<byte>)
    requires |host| <= 255 && port < 0x1_0000
    ensures DecodeConnect(SocksRequest(host, port) + rest) == Some(((host, port), rest))
  {
    var b := SocksRequest(host, port) + rest;
    var n := 5 + |host|;
    assert b[..4] == [5, 1, 0, 3] && b[5..n] == host;
    assert b[n..n + 2] == PutU16(port) && b[n] == PutU16(port)[0] && b[n + 1] == PutU16(port)[1];
    assert b[n + 2..] == rest;
  }

  /** A SOCKS5 server that follows the standards recovers the methods, the user, the password,
      the host and the port from the handshake, and finds tunnel bytes right after it. */
  lemma SocksScriptDecodes(proxy: ProxyConfig, target: Target, reply: seq<byte>, tunnel: seq<byte>)
    requires proxy.kind.Socks5? && target.port < 0x1_0000 && |target.host| <= 255
    requires proxy.username.Some? && [5, 2] <= reply ==>
      |proxy.username.value| <= 255 && (proxy.password.Some? ==> |proxy.password.value| <= 255)
    ensures var methods := DecodeMethods(HandshakeScript(proxy, target, reply) + tunnel);
      && methods.Some? && methods.value.0 == (if proxy.username.Some? then [0, 2] else [0])
      && var auth := DecodeAuth(methods.value.1);
      if proxy.username.Some? && [5, 2] <= reply then
        && auth.Some?
        && auth.value.0 == (proxy.username.value, if proxy.password.Some? then proxy.password.value else [])
        && DecodeConnect(auth.value.1) == Some(((Octets(target.host), target.port), tunnel))
      else DecodeConnect(methods.value.1) == Some(((Octets(target.host), target.port), tunnel))
  {
    var asked := AsksPassword(proxy, reply);
    assert asked <==> proxy.username.Some? && [5, 2] <= reply;
    var greeting, request := SocksGreeting(proxy), SocksRequest(Octets(target.host), target.port);
    SocksRequestDecodes(Octets(target.host), target.port, tunnel);
    hide SocksGreeting, SocksRequest, SocksAuth, DecodeMethods, DecodeAuth, DecodeConnect;
    if asked {
      var auth := SocksAuth(proxy.username.value, Password(proxy));
      SocksAuthDecodes(proxy.username.value, Password(proxy), request + tunnel);
      FourParts(greeting, auth, request, tunnel);
      SocksGreetingDecodes(proxy, auth + (request + tunnel));
    } else {
      FourParts(greeting, [], request, tunnel);
      assert [] + (request + tunnel) == request + tunnel;
      SocksGreetingDecodes(proxy, request + tunnel);
    }
  }

  // ---------------------------------------------------------------- the CONNECT request

  lemma LinesSplit(lines: seq<string>)
    requires lines != [] && forall i :: 0 <= i < |lines| ==> WellFormedLine(lines[i])
    ensures Split(Join(lines, "\r\n"), "\r\n") == lines
  {
    assert Unbordered("\r\n");
    SplitOfJoin(lines, "\r\n");
  }

  /** What an HTTP proxy reads: for a host without a line break, the lines of the head are the
      request line, the Host header, the keep-alive header and, exactly when a user is
      configured, the credentials. */
  lemma ConnectRequestLines(proxy: ProxyConfig, target: Target, reply: seq<byte>)
    requires !proxy.kind.Socks5? && IsUtf8(target.host) && Lacks(target.host, "\r\n")
    ensures var t := FormatTarget(target);
      var lines := ["CONNECT " + t + " HTTP/1.1", "Host: " + t, "Proxy-Connection: Keep-Alive"]
                   + if proxy.username.Some? then ["Proxy-Authorization: Basic " + BasicAuth(proxy)] else [];
      var head := Join(lines, "\r\n");
      && HandshakeScript(proxy, target, reply) == Octets(head + "\r\n\r\n")
      && Split(head, "\r\n") == lines
  {
    hide WellFormedLine, IsUtf8, ConnectRequest, BasicAuth;
    ConnectRequestIsHead(proxy, target);
    ConnectLinesAreWellFormed(proxy, target);
    var t := FormatTarget(target);
    var lines := ["CONNECT " + t + " HTTP/1.1", "Host: " + t, "Proxy-Connection: Keep-Alive"]
                 + if proxy.username.Some? then ["Proxy-Authorization: Basic " + BasicAuth(proxy)] else [];
    assert lines == ConnectLines(proxy, target);
    LinesSplit(lines);
  }

  /** Section 2 of RFC 7617, as a proxy decodes the credentials: the user ends at the first
      colon, and the rest is the password. */
  function ReadCredentials(token: string): Option<(seq<byte>, seq<byte>)> {
    match Base64.Decode(token)
    case None => None
    case Some(raw) =>
      match Find(raw, [58])
      case None => None
      case Some(i) => Some((raw[..i], raw[i + 1..]))
  }

  lemma ColonAt(b: seq<byte>, i: int)
    ensures At(b, [58], i) <==> 0 <= i < |b| && b[i] == 58
  {
    if 0 <= i < |b| {
      assert b[i..i + 1] == [b[i]];
    }
  }

  /** The proxy recovers the user and the password exactly when the user has no colon. */
  lemma CredentialsReadBackExactly(proxy: ProxyConfig)
    requires proxy.username.Some?
    ensures ReadCredentials(BasicAuth(proxy))
         == Some((proxy.username.value, if proxy.password.Some? then proxy.password.value else []))
       <==> 58 !in proxy.username.value
  {
    hide Base64.Encode, Base64.Decode, FindFrom;
    var user, password := proxy.username.value, Password(proxy);
    var raw := user + [58] + password;
    Base64.DecodeOfEncode(raw);
    var n := |user|;
    assert raw[..n] == user && raw[n + 1..] == password && raw[n] == 58;
    forall i
      ensures At(raw, [58], i) <==> 0 <= i < |raw| && raw[i] == 58
    {
      ColonAt(raw, i);
    }
    if 58 !in user {
      FindIs(raw, [58], n);
    } else {
      var k :| 0 <= k < n && user[k] == 58;
      assert At(raw, [58], k);
    }
  }

  // ---------------------------------------------------------------- the CONNECT reply

  lemma SpaceOfFront(s: string, k: nat)
    requires k <= |s|
    ensures SpaceWidth(s) <= k && SpaceWidth(s) > 0 ==> SpaceWidth(s[..k]) == SpaceWidth(s)
    ensures SpaceWidth(s) == 0 ==> SpaceWidth(s[..k]) == 0
  {
    assert s[..k] + s[k..] == s;
    assert forall i :: 0 <= i < k ==> s[..k][i] == s[i];
  }

  lemma TrimStartStep(s: string)
    ensures TrimStart(s) == if SpaceWidth(s) > 0 then TrimStart(s[SpaceWidth(s)..]) else s
  {
  }

  lemma EmptyIsBlank()
    ensures Blank("")
  {
  }

  lemma BlankStep(space: string, more: string)
    requires space != "" && SpaceWidth(space) == |space| && Blank(more)
    ensures Blank(space + more)
  {
    SpaceIsFirst(space, more);
    assert (space + more)[|space|..] == more;
  }

  /** What trimming the front removes is white space. */
  lemma {:induction false} TrimmedIsBlank(s: string) returns (lead: string)
    ensures s == lead + TrimStart(s) && Blank(lead)
    decreases |s|
  {
    hide TrimStart, Blank;
    TrimStartStep(s);
    var w := SpaceWidth(s);
    if w == 0 {
      lead := "";
      EmptyIsBlank();
    } else {
      var space := s[..w];
      var more := TrimmedIsBlank(s[w..]);
      lead := space + more;
      SpaceOfFront(s, w);
      BlankStep(space, more);
      assert s == space + s[w..];
      Regroup(space, more, TrimStart(s));
    }
  }

  lemma {:induction false} WordHasNoSpace(s: string, i: nat)
    requires i < WordLength(s)
    ensures SpaceWidth(s[i..]) == 0
    decreases |s|
  {
    assert s[0..] == s;
    if i > 0 {
      WordHasNoSpace(s[1..], i - 1);
      assert s[1..][i - 1..] == s[i..];
    }
  }

  lemma LeadingWord(s: string)
    requires s != "" && SpaceWidth(s) == 0
    ensures IsWord(s[..WordLength(s)]) && Apart(s[WordLength(s)..])
  {
    var n := WordLength(s);
    forall i | 0 <= i < n
      ensures SpaceWidth(s[..n][i..]) == 0
    {
      WordHasNoSpace(s, i);
      SpaceOfFront(s[i..], n - i);
      assert s[..n][i..] == s[i..][..n - i];
    }
  }

  /** The second word of the line is `word`. */
  ghost predicate SecondWord(line: string, lead: string, version: string, gap: string, word: string, phrase: string) {
    && line == lead + (version + (gap + (word + phrase)))
    && Blank(lead) && IsWord(version) && gap != "" && Blank(gap) && IsWord(word) && Apart(phrase)
  }

  lemma SecondWordIsRead(line: string, lead: string, version: string, gap: string, word: string, phrase: string)
    requires SecondWord(line, lead, version, gap, word, phrase)
    ensures NthWord(line, 1) == Some(word)
  {
    hide SpaceWidth, WordLength;
    var after := gap + (word + phrase);
    SpaceIsFirst(gap, word + phrase);
    TrimStartOfBlank(lead, version + after);
    TrimStartOfBlank(gap, word + phrase);
    FirstWordIs(version, after);
    FirstWordIs(word, phrase);
  }

  lemma FirstWordSplits(s: string) returns (lead: string, word: string, rest: string)
    requires NthWord(s, 0).Some?
    ensures s == lead + (word + rest) && Blank(lead) && IsWord(word) && Apart(rest)
    ensures NthWord(s, 0) == Some(word) && NthWord(s, 1) == NthWord(rest, 0)
  {
    hide SpaceWidth, WordLength, TrimStart, Blank, IsWord;
    var t := TrimStart(s);
    lead := TrimmedIsBlank(s);
    LeadingWord(t);
    word, rest := t[..WordLength(t)], t[WordLength(t)..];
    assert t == word + rest;
  }

  lemma ReadSecondWord(line: string)
    requires NthWord(line, 1).Some?
    ensures exists lead, version, gap, phrase :: SecondWord(line, lead, version, gap, NthWord(line, 1).value, phrase)
  {
    var lead, version, after := FirstWordSplits(line);
    var gap, word, phrase := FirstWordSplits(after);
    if gap == "" {
      assert after == word + phrase;
      WordStart(word, phrase);
    }
    assert SecondWord(line, lead, version, gap, word, phrase);
  }

  /** `line` is the first line of `head`, with the carriage return that may end it. */
  predicate FirstLineOf(head: string, line: string, rest: string) {
    head == line + rest && line != "" && '\n' !in line && (rest == "" || rest[0] == '\n')
  }

  function Stripped(line: string, rest: string): string
    requires line != ""
  {
    if rest != "" && line[|line| - 1] == '\r' then line[..|line| - 1] else line
  }

  lemma FirstLineIs(head: string, line: string, rest: string)
    requires FirstLineOf(head, line, rest)
    ensures FirstLine(head) == Some(Stripped(line, rest))
  {
    var n := |line|;
    assert head[n - 1] == line[n - 1] && head[..n] == line && head[..n - 1] == line[..n - 1];
    if rest != "" {
      assert forall j :: 0 <= j < n ==> head[j] == line[j];
      FirstIndexIs(head, '\n', n);
    } else {
      assert head == line;
    }
  }

  lemma FirstLineCuts(head: string) returns (line: string, rest: string)
    requires head != "" && head[0] != '\n'
    ensures FirstLineOf(head, line, rest)
  {
    var end := IndexOf(head, '\n');
    line, rest := head, "";
    if end.Some? {
      line, rest := head[..end.value], head[end.value..];
    }
  }

  lemma ReturnIsApart(phrase: string)
    ensures Apart(phrase) <==> Apart(phrase + "\r")
  {
    if phrase != "" {
      SpaceStays(phrase, "\r");
    }
  }

  lemma CutAfter(lead: string, version: string, gap: string, word: string, phrase: string, c: string)
    ensures lead + (version + (gap + (word + phrase))) + c == lead + (version + (gap + (word + (phrase + c))))
  {
    Regroup(word, phrase, c);
    Regroup(gap, word + phrase, c);
    Regroup(version, gap + (word + phrase), c);
    Regroup(lead, version + (gap + (word + phrase)), c);
  }

  lemma LastOfLine(lead: string, version: string, gap: string, word: string, phrase: string)
    requires word != ""
    ensures var line := lead + (version + (gap + (word + phrase)));
      line[|line| - 1] == if phrase == "" then word[|word| - 1] else phrase[|phrase| - 1]
  {
  }

  /** The second word of a line does not depend on a carriage return at its end. */
  lemma StrippedWord(line: string, rest: string, lead: string, version: string, gap: string, word: string,
                     phrase: string)
    requires line != "" && word != "" && word[|word| - 1] != '\r'
    requires SecondWord(line, lead, version, gap, word, phrase)
    ensures NthWord(Stripped(line, rest), 1) == Some(word)
  {
    hide Apart, Blank, IsWord;
    var front := Stripped(line, rest);
    if front != line {
      LastOfLine(lead, version, gap, word, phrase);
      var less := phrase[..|phrase| - 1];
      assert phrase == less + "\r";
      ReturnIsApart(less);
      CutAfter(lead, version, gap, word, less, "\r");
      assert front == (front + "\r")[..|front|] && line == front + "\r";
    }
    SecondWordIsRead(front, lead, version, gap, word, if front == line then phrase else phrase[..|phrase| - 1]);
  }

  /** The second word of the first line, between white space, is 200. */
  ghost predicate Says200(head: string) {
    exists line, rest, lead, version, gap, phrase ::
      FirstLineOf(head, line, rest) && SecondWord(line, lead, version, gap, "200", phrase)
  }

  lemma Says200IsOk(head: string)
    requires Says200(head)
    ensures FirstLine(head).Some? && NthWord(FirstLine(head).value, 1) == Some("200")
  {
    hide SecondWord, NthWord, FirstLine;
    var line, rest, lead, version, gap, phrase :|
      FirstLineOf(head, line, rest) && SecondWord(line, lead, version, gap, "200", phrase);
    FirstLineIs(head, line, rest);
    StrippedWord(line, rest, lead, version, gap, "200", phrase);
  }

  lemma NothingInBlankHead(head: string)
    requires head == "" || head[0] == '\n'
    ensures FirstLine(head).Some? ==> NthWord(FirstLine(head).value, 1).None?
  {
    if head != "" {
      assert IndexOf(head, '\n') == Some(0);
    }
  }

  lemma OkSays200(head: string)
    requires FirstLine(head).Some? && NthWord(FirstLine(head).value, 1) == Some("200")
    ensures Says200(head)
  {
    hide NthWord, FirstLine, Apart, Blank, IsWord;
    if head == "" || head[0] == '\n' {
      NothingInBlankHead(head);
    } else {
      var line, rest := FirstLineCuts(head);
      FirstLineIs(head, line, rest);
      var front := Stripped(line, rest);
      ReadSecondWord(front);
      var lead, version, gap, phrase :| SecondWord(front, lead, version, gap, "200", phrase);
      if front == line {
        assert SecondWord(line, lead, version, gap, "200", phrase);
      } else {
        assert line == front + "\r";
        CutAfter(lead, version, gap, "200", phrase, "\r");
        ReturnIsApart(phrase);
        assert SecondWord(line, lead, version, gap, "200", phrase + "\r");
      }
    }
  }

  lemma BlankLineAt(b: seq<byte>, i: nat)
    ensures HeaderEnd(b) == Some(i) <==> IsFirst(b, [13, 10, 13, 10], i)
  {
    if IsFirst(b, CRLFCRLF, i) {
      FindIs(b, CRLFCRLF, i);
    }
  }

  /** An HTTP proxy opens the tunnel with exactly the heads that are UTF-8 and whose first line
      has 200 as its second word, whatever the version, the phrase and the headers are. The
      tunnel starts right after the first blank line. */
  lemma HttpOpensExactly(proxy: ProxyConfig, reply: seq<byte>, n: nat)
    requires !proxy.kind.Socks5?
    ensures ReplyLength(proxy, reply) == Some(n)
       <==> && 4 <= n <= |reply| && IsFirst(reply, [13, 10, 13, 10], n - 4)
            && ValidUtf8(reply[..n - 4]) && Says200(Text(reply[..n - 4]))
  {
    hide FindFrom, ValidUtf8, FirstLine, NthWord, Says200;
    if 4 <= n <= |reply| {
      BlankLineAt(reply, n - 4);
      var head := Text(reply[..n - 4]);
      if Says200(head) {
        Says200IsOk(head);
      }
      if FirstLine(head).Some? && NthWord(FirstLine(head).value, 1) == Some("200") {
        OkSays200(head);
      }
    }
  }

  lemma ConnectResponseFollowsHead(src: Source)
    ensures ConnectResponse(src).0.Ok? <==> ReadHead(512, src).0.Ok?
  {
    hide FindFrom, Accumulate;
    HeadIsOfTheStream(512, src);
  }

  /** The cap on CONNECT replies, exactly: a failure-free reply whose blank line ends at byte
      `end + 4` is read under every chunking iff that is at most 65537, and under some chunking
      iff it is at most 66048. */
  lemma ConnectReplyBounds(all: seq<byte>)
    requires HeaderEnd(all).Some?
    ensures (forall plan: seq<Arrival> | Source(all, plan).FaultFree() :: ConnectResponse(Source(all, plan)).0.Ok?)
       <==> HeaderEnd(all).value + 4 <= 65537
    ensures (exists plan: seq<Arrival> :: Source(all, plan).FaultFree() && ConnectResponse(Source(all, plan)).0.Ok?)
       <==> HeaderEnd(all).value + 4 <= 66048
  {
    hide HeaderEnd, ReadHead, ConnectResponse;
    HeadBounds(512, all);
    forall plan: seq<Arrival>
      ensures ConnectResponse(Source(all, plan)).0.Ok? <==> ReadHead(512, Source(all, plan)).0.Ok?
    {
      ConnectResponseFollowsHead(Source(all, plan));
    }
  }

  /** When a handshake on a connection that does not break succeeds for certain: the reply opens
      the tunnel, and what is said and read fits its field or its buffer. */
  lemma HandshakeFitsExactly(proxy: ProxyConfig, target: Target, reply: seq<byte>)
    ensures HandshakeFits(proxy, target, reply)
       <==> && ReplyLength(proxy, reply).Some?
            && if proxy.kind.Socks5? then
                 && |target.host| <= 255
                 && (proxy.username.Some? && [5, 2] <= reply ==>
                       && |proxy.username.value| <= 255
                       && (proxy.password.Some? ==> |proxy.password.value| <= 255))
               else ReplyLength(proxy, reply).value <= 65537
  {
    assert AsksPassword(proxy, reply) <==> proxy.username.Some? && [5, 2] <= reply;
  }
}
