/** Handshakes with upstream proxies: src/proxy.rs. */
module Proxy {
  import opened Wrappers
  import Base64
  import opened Bytes
  import opened Search
  import opened Strings
  import opened Streams
  import opened Targets
  import opened Http

  datatype ProxyKind = PlainHttp | Https | Socks5

  datatype ProxyConfig = ProxyConfig(kind: ProxyKind, username: Option<seq<byte>>, password: Option<seq<byte>>)

  function Password(proxy: ProxyConfig): seq<byte> {
    if proxy.password.Some? then proxy.password.value else []
  }

  // ---------------------------------------------------------------- the CONNECT request

  const EOL: string := "\r\n"

  function ConnectLine(target: Target): string {
    "CONNECT " + FormatTarget(target) + " HTTP/1.1"
  }

  /** `basic_auth_header` of a proxy with a user: "username:password" in base64. */
  function BasicAuth(proxy: ProxyConfig): string
    requires proxy.username.Some?
  {
    Base64.Encode(proxy.username.value + [58] + Password(proxy))
  }

  function AuthorizationLine(proxy: ProxyConfig): string
    requires proxy.username.Some?
  {
    "Proxy-Authorization: Basic " + BasicAuth(proxy)
  }

  function ConnectRequest(proxy: ProxyConfig, target: Target): string {
    ConnectLine(target) + EOL + HostLine(target) + EOL + "Proxy-Connection: Keep-Alive" + EOL
    + (if proxy.username.Some? then AuthorizationLine(proxy) + EOL else "")
    + EOL
  }

  function ConnectLines(proxy: ProxyConfig, target: Target): seq<string> {
    if proxy.username.Some?
      then [ConnectLine(target), HostLine(target), "Proxy-Connection: Keep-Alive", AuthorizationLine(proxy)]
      else [ConnectLine(target), HostLine(target), "Proxy-Connection: Keep-Alive"]
  }

  lemma ThreeLines(a: string, b: string, c: string)
    ensures RequestHead([a, b, c]) == a + EOL + b + EOL + c + EOL + "" + EOL
  {
    assert [a, b, c][1..] == [b, c] && [b, c][1..] == [c];
    assert Join([b, c], EOL) == b + EOL + c;
    assert HEAD_END == EOL + EOL;
  }

  lemma FourLines(a: string, b: string, c: string, d: string)
    ensures RequestHead([a, b, c, d]) == a + EOL + b + EOL + c + EOL + (d + EOL) + EOL
  {
    assert [a, b, c, d][1..] == [b, c, d];
    assert Join([a, b, c, d], EOL) == a + EOL + Join([b, c, d], EOL);
    assert RequestHead([a, b, c, d]) == a + EOL + RequestHead([b, c, d]);
    ThreeLines(b, c, d);
  }

  lemma ConnectRequestIsHead(proxy: ProxyConfig, target: Target)
    ensures ConnectRequest(proxy, target) == RequestHead(ConnectLines(proxy, target))
  {
    var keep := "Proxy-Connection: Keep-Alive";
    if proxy.username.Some? {
      FourLines(ConnectLine(target), HostLine(target), keep, AuthorizationLine(proxy));
    } else {
      ThreeLines(ConnectLine(target), HostLine(target), keep);
    }
  }

  lemma PlainIsWellFormed(line: string)
    requires line != "" && forall i :: 0 <= i < |line| ==> IsAsciiChar(line[i]) && line[i] != '\r'
    ensures WellFormedLine(line)
  {
    AsciiTextIsUtf8(line);
    NoReturnLacksCrlf(line);
  }

  lemma AuthorizationIsWellFormed(proxy: ProxyConfig)
    requires proxy.username.Some?
    ensures WellFormedLine(AuthorizationLine(proxy))
  {
    hide WellFormedLine, Base64.Encode;
    Base64.EncodedIsPlain(proxy.username.value + [58] + Password(proxy));
    var auth := BasicAuth(proxy);
    assert forall i :: 0 <= i < |auth| ==> IsAsciiChar(auth[i]) && auth[i] != '\r';
    PlainIsWellFormed(AuthorizationLine(proxy));
  }

  lemma ConnectLineIsWellFormed(target: Target)
    requires IsUtf8(target.host) && Lacks(target.host, "\r\n")
    ensures WellFormedLine(ConnectLine(target))
  {
    hide IsUtf8;
    FormattedText(target);
    Wrapped("CONNECT ", FormatTarget(target), " HTTP/1.1");
  }

  lemma FourWellFormed(a: string, b: string, c: string, d: string)
    requires WellFormedLine(a) && WellFormedLine(b) && WellFormedLine(c) && WellFormedLine(d)
    ensures forall i :: 0 <= i < 4 ==> WellFormedLine([a, b, c, d][i])
    ensures forall i :: 0 <= i < 3 ==> WellFormedLine([a, b, c][i])
  {
  }

  lemma ConnectLinesAreWellFormed(proxy: ProxyConfig, target: Target)
    requires IsUtf8(target.host) && Lacks(target.host, "\r\n")
    ensures forall i :: 0 <= i < |ConnectLines(proxy, target)| ==> WellFormedLine(ConnectLines(proxy, target)[i])
  {
    hide WellFormedLine, IsUtf8;
    ConnectLineIsWellFormed(target);
    HostLineIsWellFormed(target);
    PlainIsWellFormed("Proxy-Connection: Keep-Alive");
    var last := ConnectLine(target);
    if proxy.username.Some? {
      AuthorizationIsWellFormed(proxy);
      last := AuthorizationLine(proxy);
    }
    FourWellFormed(ConnectLine(target), HostLine(target), "Proxy-Connection: Keep-Alive", last);
  }

  lemma TwoLines(a: string, b: string)
    ensures RequestHead([a, b]) == a + EOL + b + EOL + "" + EOL
  {
    assert [a, b][1..] == [b] && Join([b], EOL) == b;
    assert Join([a, b], EOL) == a + EOL + b;
    assert HEAD_END == EOL + EOL;
    var front := a + EOL + b;
    Regroup(front, EOL, EOL);
    assert front + EOL + "" == front + EOL;
  }

  /** What follows the host in the Host header, as a head of its own. */
  function ConnectTail(proxy: ProxyConfig, suffix: string): seq<string> {
    if proxy.username.Some? then [suffix, "Proxy-Connection: Keep-Alive", AuthorizationLine(proxy)]
    else [suffix, "Proxy-Connection: Keep-Alive"]
  }

  lemma HeadIsOctets(lines: seq<string>)
    requires lines != [] && forall i :: 0 <= i < |lines| ==> WellFormedLine(lines[i])
    ensures IsOctets(RequestHead(lines))
  {
    JoinIsUtf8(lines);
  }

  lemma ConnectTailEnds(proxy: ProxyConfig, suffix: string)
    requires WellFormedLine(suffix)
    ensures var head := RequestHead(ConnectTail(proxy, suffix));
      IsOctets(head) && Find(head, HEAD_END) == Some(|head| - 4)
  {
    hide WellFormedLine, FindFrom, At;
    var lines := ConnectTail(proxy, suffix);
    PlainIsWellFormed("Proxy-Connection: Keep-Alive");
    var last := suffix;
    if proxy.username.Some? {
      AuthorizationIsWellFormed(proxy);
      last := AuthorizationLine(proxy);
    }
    FourWellFormed(suffix, "Proxy-Connection: Keep-Alive", last, suffix);
    assert forall i :: 0 <= i < |lines| ==> WellFormedLine(lines[i]);
    HeadIsOctets(lines);
    HeadParses(lines, []);
    HeaderEndOfText(RequestHead(lines));
  }

  lemma HeadStart(lines: seq<string>)
    requires lines != [] && lines[0] != ""
    ensures RequestHead(lines) != "" && RequestHead(lines)[0] == lines[0][0]
  {
  }

  lemma TailIs(q: string, e: string, k: string, x: string, before: string)
    ensures before + q + e + k + e + x + e == before + (q + e + k + e + x + e)
  {
  }

  lemma AuthorizedTail(q: string, k: string, auth: string)
    ensures RequestHead([q, k, auth]) == q + EOL + k + EOL + (auth + EOL) + EOL
  {
    hide RequestHead;
    ThreeLines(q, k, auth);
    var front := q + EOL + k + EOL;
    assert front + auth + EOL == front + (auth + EOL);
    assert front + auth + EOL + "" == front + auth + EOL;
  }

  lemma PrintedTwice(c: string, p: string, h: string, q: string, v: string, e: string, n: string, tail: string)
    ensures c + (p + h + q) + v + e + (n + (p + h)) + tail == c + p + (h + (q + v + e + n + p + (h + tail)))
  {
    assert c + (p + h + q) == c + p + h + q;
    var front, middle := c + p, q + v + e + n + p;
    assert c + p + h + q + v + e + (n + (p + h)) == front + h + middle + h;
    Regroup(front + h, middle, h + tail);
    Regroup(front, h, middle + (h + tail));
    Regroup(front + h + middle, h, tail);
  }

  lemma HostAtEnd(front: string, n: string, h: string, q: string)
    ensures front + (n + (h + q)) == front + (n + h) + q
  {
    Regroup(n, h, q);
    Regroup(front, n + h, q);
  }

  /** The request, cut around the two places where the host is printed. */
  lemma ConnectRequestParts(proxy: ProxyConfig, target: Target)
    ensures var h, p, q := target.host, HostPrefix(target), HostSuffix(target);
      ConnectRequest(proxy, target)
      == "CONNECT " + p + (h + (q + " HTTP/1.1" + EOL + "Host: " + p + (h + RequestHead(ConnectTail(proxy, q)))))
  {
    hide HostPrefix, HostSuffix, FormatTarget, RequestHead;
    var h, p, q := target.host, HostPrefix(target), HostSuffix(target);
    var keep := "Proxy-Connection: Keep-Alive";
    var x := if proxy.username.Some? then AuthorizationLine(proxy) + EOL else "";
    FormattedParts(target);
    if proxy.username.Some? {
      AuthorizedTail(q, keep, AuthorizationLine(proxy));
    } else {
      TwoLines(q, keep);
    }
    var tail := q + EOL + keep + EOL + x + EOL;
    assert RequestHead(ConnectTail(proxy, q)) == tail;
    var front := "CONNECT " + (p + h + q) + " HTTP/1.1" + EOL;
    HostAtEnd(front, "Host: ", p + h, q);
    TailIs(q, EOL, keep, x, front + ("Host: " + (p + h)));
    PrintedTwice("CONNECT ", p, h, q, " HTTP/1.1", EOL, "Host: ", tail);
  }

  lemma NoReturnLacksHeadEnd(s: string)
    requires '\r' !in s
    ensures Lacks(s, HEAD_END)
  {
    forall i
      ensures !At(s, HEAD_END, i)
    {
      if At(s, HEAD_END, i) {
        HeadEndIsBreaks(s, i);
      }
    }
  }

  lemma HostSurroundings(target: Target)
    ensures var p, q := HostPrefix(target), HostSuffix(target);
      var a, b := "CONNECT " + p, q + " HTTP/1.1" + EOL + "Host: " + p;
      && Lacks(a, HEAD_END) && !IsBreak(a[|a| - 1]) && WellFormedLine(q) && q != "" && !IsBreak(q[0])
      && IsOctets(a) && IsOctets(b)
      && Lacks(b, HEAD_END) && !IsBreak(b[0]) && !IsBreak(b[|b| - 1])
  {
    hide WellFormedLine, IsUtf8;
    var p, q := HostPrefix(target), HostSuffix(target);
    PlainIsWellFormed(q);
    Regroup(q + " HTTP/1.1" + EOL, "Host: ", p);
    OneReturnLacksHeadEnd(q + " HTTP/1.1", "Host: " + p);
    NoReturnLacksHeadEnd("CONNECT " + p);
  }

  lemma TwoOctets(a: string, b: string)
    requires IsOctets(a) && IsOctets(b)
    ensures IsOctets(a + b)
  {
    assert forall i :: |a| <= i < |a + b| ==> (a + b)[i] == b[i - |a|];
  }

  lemma FiveOctets(a: string, h: string, b: string, c: string)
    requires IsOctets(a) && IsOctets(h) && IsOctets(b) && IsOctets(c)
    ensures IsOctets(a + (h + (b + (h + c))))
  {
    TwoOctets(h, c);
    TwoOctets(b, h + c);
    TwoOctets(h, b + (h + c));
    TwoOctets(a, h + (b + (h + c)));
  }

  /** The request is one head exactly when its host has no blank line. */
  lemma RequestEndsExactly(proxy: ProxyConfig, target: Target)
    requires IsUtf8(target.host)
    ensures HeaderEnd(Octets(ConnectRequest(proxy, target))) == Some(|ConnectRequest(proxy, target)| - 4)
       <==> Find(target.host, HEAD_END).None?
  {
    hide ValidUtf8, FindFrom, At, ConnectRequest, RequestHead, HostPrefix, HostSuffix, WellFormedLine;
    var h, p, q := target.host, HostPrefix(target), HostSuffix(target);
    ConnectRequestParts(proxy, target);
    HostSurroundings(target);
    ConnectTailEnds(proxy, q);
    HeadStart(ConnectTail(proxy, q));
    HeadEndsAfterTwice("CONNECT " + p, h, q + " HTTP/1.1" + EOL + "Host: " + p, RequestHead(ConnectTail(proxy, q)));
    FiveOctets("CONNECT " + p, h, q + " HTTP/1.1" + EOL + "Host: " + p, RequestHead(ConnectTail(proxy, q)));
    HeaderEndOfText(ConnectRequest(proxy, target));
  }

  lemma BrokenHostIsNotReadBack(proxy: ProxyConfig, target: Target)
    requires !Lacks(target.host, "\r\n")
    ensures ParseHttpHost(Octets(ConnectRequest(proxy, target))) != Ok(target)
  {
    var request := Octets(ConnectRequest(proxy, target));
    if ParseHttpHost(request).Ok? {
      HostsHaveNoLineBreak(request);
    }
  }

  lemma UnbrokenRequest(proxy: ProxyConfig, target: Target)
    requires IsUtf8(target.host) && target.port < 0x1_0000
    requires Lacks(target.host, "\r\n")
    ensures ParseHttpHost(Octets(ConnectRequest(proxy, target))) == Ok(target) <==> ReadsBack(target.host)
  {
    hide WellFormedLine, IsUtf8, ParseHttpHost, ReadsBack, ConnectRequest;
    ConnectRequestIsHead(proxy, target);
    ConnectLinesAreWellFormed(proxy, target);
    RequestForTarget(ConnectLines(proxy, target), 1, target, []);
    assert Octets(ConnectRequest(proxy, target)) + [] == Octets(ConnectRequest(proxy, target));
  }

  /** For every host the program can hold, the CONNECT request is one head exactly when the host
      has no blank line, and names the target so that `parse_http_host` reads it back exactly
      when the host is printable, has no line break and, unless brackets protect it, does not
      start with white space. */
  lemma ConnectRequestNamesTarget(proxy: ProxyConfig, target: Target)
    requires IsUtf8(target.host) && target.port < 0x1_0000
    ensures var request := Octets(ConnectRequest(proxy, target));
      && (ParseHttpHost(request) == Ok(target) <==> ReadsBack(target.host))
      && (HeaderEnd(request) == Some(|request| - 4) <==> Find(target.host, HEAD_END).None?)
  {
    hide IsUtf8, ParseHttpHost, ConnectRequest, FindFrom, Printable, At, HeaderEnd;
    RequestEndsExactly(proxy, target);
    if Lacks(target.host, "\r\n") {
      UnbrokenRequest(proxy, target);
    } else {
      BrokenHostIsNotReadBack(proxy, target);
    }
  }

  lemma BrokenHost(host: string)
    requires host == "a\r\n\r\nb"
    ensures IsUtf8(host) && !Lacks(host, "\r\n")
  {
    AsciiTextIsUtf8(host);
    assert At(host, "\r\n", 1);
  }

  lemma BrokenConnectLine(port: nat)
    ensures "CONNECT a" + HEAD_END <= ConnectLine(Target("a\r\n\r\nb", port))
  {
  }

  lemma HeadEndsAtBreak(start: string, s: string)
    requires start + HEAD_END <= s && '\r' !in start && IsOctets(start)
    ensures HeaderEnd(Octets(s)) == Some(|start|)
  {
    var b, n := Octets(s), |start|;
    assert forall i :: 0 <= i < n + 4 ==> s[i] == (start + HEAD_END)[i];
    assert b[n..n + 4] == CRLFCRLF;
    forall j | 0 <= j < n
      ensures !At(b, CRLFCRLF, j)
    {
      assert b[j..j + 4][0] == b[j];
      assert s[j] == start[j];
    }
    FindIs(b, CRLFCRLF, n);
  }

  /** A name that ends the head early: the TLS reader accepts it, since it is UTF-8. */
  lemma LineBreakEndsTheHead(proxy: ProxyConfig, port: nat)
    ensures var target := Target("a\r\n\r\nb", port);
      var request := Octets(ConnectRequest(proxy, target));
      && IsUtf8(target.host) && HeaderEnd(request) == Some(9) && ParseHttpHost(request) != Ok(target)
  {
    hide ParseHttpHost, IsUtf8, HeaderEnd;
    var target := Target("a\r\n\r\nb", port);
    BrokenHost(target.host);
    BrokenHostIsNotReadBack(proxy, target);
    BrokenConnectLine(port);
    HeadEndsAtBreak("CONNECT a", ConnectRequest(proxy, target));
  }

  // ---------------------------------------------------------------- the CONNECT reply

  /** `lines().next()`. */
  function FirstLine(head: string): Option<string> {
    if head == "" then None
    else
      match IndexOf(head, '\n')
      case None => Some(head)
      case Some(i) => Some(if i > 0 && head[i - 1] == '\r' then head[..i - 1] else head[..i])
  }

  function WordLength(s: string): (n: nat)
    ensures n <= |s| && (n < |s| ==> SpaceWidth(s[n..]) > 0)
  {
    if s == "" || SpaceWidth(s) > 0 then 0 else 1 + WordLength(s[1..])
  }

  /** The word after `skip` words of `split_whitespace`. */
  function NthWord(s: string, skip: nat): Option<string> {
    var t := TrimStart(s);
    var n := WordLength(t);
    if t == "" then None
    else if skip == 0 then Some(t[..n])
    else NthWord(t[n..], skip - 1)
  }

  predicate StatusOk(header: seq<byte>) {
    && ValidUtf8(header)
    && FirstLine(Text(header)).Some?
    && NthWord(FirstLine(Text(header)).value, 1) == Some("200")
  }

  predicate IsWord(s: string) {
    s != "" && forall i :: 0 <= i < |s| ==> SpaceWidth(s[i..]) == 0
  }

  /** Nothing, or text that starts with white space. */
  predicate Apart(s: string) {
    s == "" || SpaceWidth(s) > 0
  }

  lemma WordTail(word: string)
    requires IsWord(word) && |word| > 1
    ensures IsWord(word[1..])
  {
    assert forall i :: 0 <= i < |word| - 1 ==> word[1..][i..] == word[i + 1..];
  }

  lemma WordStart(word: string, rest: string)
    requires IsWord(word) && Apart(rest)
    ensures SpaceWidth(word + rest) == 0 && (word + rest)[1..] == word[1..] + rest
    ensures |word| == 1 ==> word[1..] + rest == rest && WordLength(rest) == 0
  {
    assert word[0..] == word;
    SpaceStays(word, rest);
  }

  lemma {:induction false} NextWordIs(word: string, rest: string)
    requires IsWord(word) && Apart(rest)
    ensures SpaceWidth(word + rest) == 0 && WordLength(word + rest) == |word|
    decreases |word|
  {
    hide SpaceWidth;
    WordStart(word, rest);
    if |word| > 1 {
      WordTail(word);
      NextWordIs(word[1..], rest);
    }
  }

  lemma FirstWordIs(word: string, rest: string)
    requires IsWord(word) && Apart(rest)
    ensures NthWord(word + rest, 0) == Some(word)
    ensures NthWord(word + rest, 1) == NthWord(rest, 0)
  {
    hide SpaceWidth, WordLength;
    NextWordIs(word, rest);
    assert TrimStart(word + rest) == word + rest;
    assert (word + rest)[..|word|] == word && (word + rest)[|word|..] == rest;
  }

  lemma LeadingBlank(s: string)
    ensures NthWord(" " + s, 0) == NthWord(s, 0)
  {
    assert (" " + s)[1..] == s;
    assert TrimStart(" " + s) == TrimStart(s);
  }

  lemma SecondWordIs(version: string, code: string, phrase: string)
    requires IsWord(version) && IsWord(code) && Apart(phrase)
    ensures NthWord(version + (" " + (code + phrase)), 1) == Some(code)
  {
    FirstWordIs(version, " " + (code + phrase));
    LeadingBlank(code + phrase);
    FirstWordIs(code, phrase);
  }

  function StatusLine(version: string, code: string, phrase: string): string {
    version + (" " + (code + phrase))
  }

  lemma FirstLineOfHead(first: string, more: string)
    requires first != "" && '\n' !in first && (more == "" || EOL <= more)
    ensures FirstLine(first + more) == Some(first)
  {
    var head := first + more;
    assert forall i :: 0 <= i < |first| ==> head[i] == first[i];
    if more == "" {
      assert head == first;
    } else {
      assert more[0] == '\r' && more[1] == '\n';
      FirstIndexIs(head, '\n', |first| + 1);
      assert head[..|first|] == first;
    }
  }

  lemma FirstLineOfLines(lines: seq<string>)
    requires lines != [] && lines[0] != "" && '\n' !in lines[0]
    ensures FirstLine(Join(lines, EOL)) == Some(lines[0])
  {
    if |lines| == 1 {
      assert lines[0] + "" == lines[0];
      FirstLineOfHead(lines[0], "");
    } else {
      var more := EOL + Join(lines[1..], EOL);
      assert more[..2] == EOL;
      assert Join(lines, EOL) == lines[0] + more;
      FirstLineOfHead(lines[0], more);
    }
  }

  lemma StatusOfHead(head: string, first: string, code: string)
    requires IsUtf8(head)
    ensures FirstLine(head) == Some(first) && NthWord(first, 1) == Some(code) ==>
      (StatusOk(Octets(head)) <==> code == "200")
  {
    hide FirstLine, NthWord;
    TextOfOctets(head);
  }

  /** Length of the reply that opens a tunnel through an HTTP proxy. */
  function HttpReplyLength(reply: seq<byte>): (n: Option<nat>)
    ensures n.Some? ==> n.value <= |reply|
  {
    match HeaderEnd(reply)
    case Some(end) => if StatusOk(reply[..end]) then Some(end + 4) else None
    case None => None
  }

  /** A printed reply opens the tunnel exactly when the second word of its status line is 200,
      whatever the version, the phrase, the headers and the bytes after them are; the reply then
      ends with its head. */
  lemma StatusIsSecondWord(lines: seq<string>, version: string, code: string, phrase: string, tunnel: seq<byte>)
    requires lines != [] && forall i :: 0 <= i < |lines| ==> WellFormedLine(lines[i])
    requires lines[0] == StatusLine(version, code, phrase) && '\n' !in lines[0]
    requires IsWord(version) && IsWord(code) && Apart(phrase)
    ensures HttpReplyLength(Octets(RequestHead(lines)) + tunnel)
         == if code == "200" then Some(|RequestHead(lines)|) else None
  {
    hide IsUtf8, FirstLine, NthWord, FindFrom;
    var head := Join(lines, EOL);
    var reply := Octets(head + HEAD_END);
    HeadParses(lines, []);
    FindStable(reply, tunnel, CRLFCRLF);
    JoinIsUtf8(lines);
    OctetsOfFront(head, HEAD_END);
    assert (reply + tunnel)[..|head|] == reply[..|head|] == Octets(head);
    StatusOfHead(head, lines[0], code);
    FirstLineOfLines(lines);
    SecondWordIs(version, code, phrase);
  }

  /** `read_connect_response`: the head without its blank line, and what was read beyond it. */
  function ConnectResponse(src: Source): (Result<(seq<byte>, seq<byte>), ReadError>, Source) {
    var (r, s) := ReadHead(512, src);
    match r
    case Err(e) => (Err(e), s)
    case Ok(buf) =>
      match HeaderEnd(buf)
      case Some(end) => (Ok((buf[..end], buf[end + 4..])), s)
      case None => (Err(ClosedEarly), s)
  }

  method ReadConnectResponse(stream: Stream) returns (r: Result<(seq<byte>, seq<byte>), ReadError>)
    modifies stream`source
    ensures (r, stream.source) == ConnectResponse(old(stream.source))
  {
    hide FindFrom;
    var response: seq<byte> := [];
    ghost var answer := Accumulate(512, DecideHead, [], stream.source);
    while true
      invariant answer == Accumulate(512, DecideHead, response, stream.source)
      decreases |stream.source.rest|
    {
      var n := stream.Read(512);
      if n.Failed? {
        return Err(Io);
      }
      if n.Eof? {
        return Err(ClosedEarly);
      }
      response := response + n.bytes;
      var end := HeaderEnd(response);
      if end.Some? {
        var leftover := response[end.value + 4..];
        return Ok((response[..end.value], leftover));
      }
      if |response| > MAX_HTTP_HEADER {
        return Err(TooLarge);
      }
    }
  }

  /** Over-reading loses nothing: under every chunking, the bytes put aside and the bytes
      unread are exactly those after the first blank line, and the header is what precedes it. */
  lemma OverReadIsLossless(src: Source)
    ensures var (r, s) := ConnectResponse(src);
      && (r.Ok? ==>
            && HeaderEnd(src.rest) == Some(|r.value.0|) && r.value.0 == src.rest[..|r.value.0|]
            && r.value.1 + s.rest == src.rest[|r.value.0| + 4..])
      && Suffix(s.rest, src.rest)
      && (src.FaultFree() ==> s.FaultFree())
  {
    hide FindFrom, At, Accumulate;
    HeadIsOfTheStream(512, src);
    AccumulateLeavesSuffix(512, DecideHead, [], src);
    var (r, s) := ReadHead(512, src);
    if r.Ok? {
      var end := HeaderEnd(r.value).value;
      assert src.rest[end + 4..] == r.value[end + 4..] + s.rest;
      assert src.rest[..end] == r.value[..end];
    }
  }

  lemma SmallRepliesArrive(src: Source)
    ensures var n := HttpReplyLength(src.rest);
      (src.FaultFree() && n.Some? && n.value <= MAX_HTTP_HEADER + 1) ==> ConnectResponse(src).0.Ok?
  {
    var n := HttpReplyLength(src.rest);
    if src.FaultFree() && n.Some? && n.value <= MAX_HTTP_HEADER + 1 {
      SmallHeadsAlwaysComplete(512, src);
      HeadIsOfTheStream(512, src);
    }
  }

  /** Sends the request and reads the reply. */
  method HttpExchange(stream: Stream, request: seq<byte>) returns (r: Result<seq<byte>, ReadError>)
    requires !stream.closed
    modifies stream`source, stream`written
    ensures Suffix(stream.source.rest, old(stream.source.rest))
    ensures old(stream.written) <= stream.written <= old(stream.written) + request
    ensures r.Ok? ==> stream.written == old(stream.written) + request
    ensures r.Ok? ==> var n := HttpReplyLength(old(stream.source.rest));
      n.Some? && r.value + stream.source.rest == old(stream.source.rest)[n.value..]
    ensures old(stream.Reliable()) ==> stream.Reliable()
    ensures var n := HttpReplyLength(old(stream.source.rest));
      (old(stream.Reliable()) && n.Some? && n.value <= MAX_HTTP_HEADER + 1) ==> r.Ok?
  {
    var sent := stream.WriteAll(request);
    if !sent {
      return Err(Io);
    }
    OverReadIsLossless(stream.source);
    SmallRepliesArrive(stream.source);
    var response := ReadConnectResponse(stream);
    if response.Err? {
      return Err(response.error);
    }
    var (header, leftover) := response.value;
    r := if StatusOk(header) then Ok(leftover) else Err(Rejected("HTTP proxy CONNECT failed"));
  }

  method HttpConnect(proxy: ProxyConfig, stream: Stream, target: Target) returns (r: Result<seq<byte>, ReadError>)
    requires !stream.closed
    modifies stream`source, stream`written
    ensures Suffix(stream.source.rest, old(stream.source.rest))
    ensures var request := Octets(ConnectRequest(proxy, target));
      && old(stream.written) <= stream.written <= old(stream.written) + request
      && (r.Ok? ==> stream.written == old(stream.written) + request)
    ensures r.Ok? ==> var n := HttpReplyLength(old(stream.source.rest));
      n.Some? && r.value + stream.source.rest == old(stream.source.rest)[n.value..]
    ensures old(stream.Reliable()) ==> stream.Reliable()
    ensures var n := HttpReplyLength(old(stream.source.rest));
      (old(stream.Reliable()) && n.Some? && n.value <= MAX_HTTP_HEADER + 1) ==> r.Ok?
  {
    r := HttpExchange(stream, Octets(ConnectRequest(proxy, target)));
  }

  // ---------------------------------------------------------------- SOCKS5

  function SocksGreeting(proxy: ProxyConfig): seq<byte> {
    if proxy.username.Some? then [5, 2, 0, 2] else [5, 1, 0]
  }

  function SocksAuth(user: seq<byte>, password: seq<byte>): seq<byte> {
    [1, PutU8(|user|)] + user + [PutU8(|password|)] + password
  }

  function SocksRequest(host: seq<byte>, port: nat): seq<byte> {
    [5, 1, 0, 3, PutU8(|host|)] + host + PutU16(port)
  }

  /** What is said until a method is agreed on. */
  function SocksOpening(proxy: ProxyConfig, asked: bool): seq<byte> {
    SocksGreeting(proxy)
    + if asked && proxy.username.Some? then SocksAuth(proxy.username.value, Password(proxy)) else []
  }

  /** Everything the client says, given whether the proxy asks for the password. */
  function SocksScript(proxy: ProxyConfig, target: Target, authenticated: bool): seq<byte> {
    SocksOpening(proxy, authenticated) + SocksRequest(Octets(target.host), target.port)
  }

  predicate AsksPassword(proxy: ProxyConfig, reply: seq<byte>) {
    proxy.username.Some? && |reply| >= 2 && reply[0] == 5 && reply[1] == 2
  }

  /** Length of the method selection and, if asked for, the authentication status. */
  function SocksMethodLength(proxy: ProxyConfig, reply: seq<byte>): Option<nat> {
    if |reply| < 2 || reply[0] != 5 then None
    else if reply[1] == 0 then Some(2)
    else if AsksPassword(proxy, reply) && |reply| >= 4 && reply[2..4] == [1, 0] then Some(4)
    else None
  }

  /** Length a successful connect reply announces, per address type. */
  function SocksAnnounced(reply: seq<byte>): Option<nat> {
    if |reply| < 4 || reply[0] != 5 || reply[1] != 0 then None
    else if reply[3] == 1 then Some(4 + 4 + 2)
    else if reply[3] == 4 then Some(4 + 16 + 2)
    else if reply[3] == 3 && |reply| >= 5 then Some(5 + reply[4] as int + 2)
    else None
  }

  /** Length of one complete successful connect reply. */
  function SocksConnectLength(reply: seq<byte>): Option<nat> {
    match SocksAnnounced(reply)
    case Some(n) => if n <= |reply| then Some(n) else None
    case None => None
  }

  /** Length of the reply that opens a tunnel through a SOCKS5 proxy. */
  function SocksReplyLength(proxy: ProxyConfig, reply: seq<byte>): (n: Option<nat>)
    ensures n.Some? ==> n.value <= |reply|
  {
    match SocksMethodLength(proxy, reply)
    case None => None
    case Some(m) =>
      match SocksConnectLength(reply[m..])
      case None => None
      case Some(c) => Some(m + c)
  }

  predicate PasswordFits(proxy: ProxyConfig) {
    proxy.username.Some? && |proxy.username.value| <= 255 && |Password(proxy)| <= 255
  }

  /** The length fields hold one byte. */
  predicate SocksFits(proxy: ProxyConfig, target: Target, authenticated: bool) {
    && |target.host| <= 255
    && (authenticated ==> PasswordFits(proxy))
  }

  /** The username and password exchange. */
  method SocksAuthenticate(proxy: ProxyConfig, stream: Stream) returns (r: Result<(), ReadError>)
    requires !stream.closed && proxy.username.Some?
    modifies stream`source, stream`written
    ensures Suffix(stream.source.rest, old(stream.source.rest))
    ensures var said := SocksAuth(proxy.username.value, Password(proxy));
      && old(stream.written) <= stream.written <= old(stream.written) + said
      && (r.Ok? ==> stream.written == old(stream.written) + said && PasswordFits(proxy))
    ensures r.Ok? ==> [1, 0] + stream.source.rest == old(stream.source.rest)
    ensures old(stream.Reliable()) ==>
      stream.Reliable() && (r.Ok? <==> PasswordFits(proxy) && [1, 0] <= old(stream.source.rest))
  {
    var user, password := proxy.username.value, Password(proxy);
    if |user| > 255 || |password| > 255 {
      return Err(Rejected("SOCKS5 username/password must be <= 255 bytes"));
    }
    var sent := stream.WriteAll(SocksAuth(user, password));
    r := Err(Io);
    if sent {
      var status := stream.ReadExact(2);
      if status.Some? {
        r := if status.value == [1, 0] then Ok(())
             else Err(Rejected("SOCKS5 username/password authentication failed"));
      }
    }
  }

  /** Method selection and authentication. */
  method SocksNegotiate(proxy: ProxyConfig, stream: Stream) returns (r: Result<(), ReadError>)
    requires !stream.closed
    modifies stream`source, stream`written
    ensures Suffix(stream.source.rest, old(stream.source.rest))
    ensures var said := SocksOpening(proxy, AsksPassword(proxy, old(stream.source.rest)));
      && old(stream.written) <= stream.written <= old(stream.written) + said
      && (r.Ok? ==> stream.written == old(stream.written) + said)
    ensures r.Ok? ==> var n := SocksMethodLength(proxy, old(stream.source.rest));
      && n.Some? && n.value <= |old(stream.source.rest)|
      && stream.source.rest == old(stream.source.rest)[n.value..]
    ensures (r.Ok? && AsksPassword(proxy, old(stream.source.rest))) ==> PasswordFits(proxy)
    ensures old(stream.Reliable()) ==> stream.Reliable()
    ensures (old(stream.Reliable()) && SocksMethodLength(proxy, old(stream.source.rest)).Some?
        && (AsksPassword(proxy, old(stream.source.rest)) ==> PasswordFits(proxy))) ==> r.Ok?
  {
    hide SocksAuth, SocksGreeting;
    ghost var reply, w := stream.source.rest, stream.written;
    var greeting := SocksGreeting(proxy);
    ghost var auth := SocksAuth(if proxy.username.Some? then proxy.username.value else [], Password(proxy));
    var sent := stream.WriteAll(greeting);
    PrefixGrows(stream.written, w, greeting, auth);
    r := Err(Io);
    if sent {
      var selected := stream.ReadExact(2);
      if selected.Some? {
        assert reply == selected.value + stream.source.rest;
        assert reply[0] == selected.value[0] && reply[1] == selected.value[1];
        if proxy.username.Some? && selected.value == [5, 2] {
          assert |reply| >= 4 && reply[2..4] == [1, 0] ==> [1, 0] <= stream.source.rest;
          r := SocksAuthenticate(proxy, stream);
          PrefixAfter(stream.written, w, greeting, auth);
          assert r.Ok? ==> reply[2..4] == [1, 0] && stream.source.rest == reply[4..];
        } else if selected.value == [5, 0] {
          r := Ok(());
        } else {
          r := Err(Rejected("SOCKS5 method selection"));
        }
      }
    }
  }

  /** Reads the reply up to its address and answers how many bytes are left of it. */
  method SocksReadHead(stream: Stream) returns (r: Result<nat, ReadError>)
    modifies stream`source
    ensures Suffix(stream.source.rest, old(stream.source.rest))
    ensures r.Ok? ==>
      SocksAnnounced(old(stream.source.rest)) == Some(|old(stream.source.rest)| - |stream.source.rest| + r.value)
    ensures old(stream.source.FaultFree()) ==>
      stream.source.FaultFree() && (r.Ok? <==> SocksAnnounced(old(stream.source.rest)).Some?)
  {
    ghost var reply := stream.source.rest;
    var head := stream.ReadExact(4);
    r := Err(Io);
    if head.Some? {
      assert reply == head.value + stream.source.rest;
      if head.value[0] != 5 {
        r := Err(Rejected("invalid SOCKS5 response version"));
      } else if head.value[1] != 0 {
        r := Err(Rejected("SOCKS5 connect failed"));
      } else if head.value[3] == 1 {
        r := Ok(4 + 2);
      } else if head.value[3] == 3 {
        var len := stream.ReadExact(1);
        if len.Some? {
          assert reply == head.value + len.value + stream.source.rest;
          r := Ok(len.value[0] as int + 2);
        }
      } else if head.value[3] == 4 {
        r := Ok(16 + 2);
      } else {
        r := Err(Rejected("invalid SOCKS5 address type"));
      }
    }
  }

  /** Reads one connect reply and nothing after it. */
  method SocksReadReply(stream: Stream) returns (r: Result<(), ReadError>)
    modifies stream`source
    ensures Suffix(stream.source.rest, old(stream.source.rest))
    ensures r.Ok? ==> var n := SocksConnectLength(old(stream.source.rest));
      n.Some? && n.value <= |old(stream.source.rest)| && stream.source.rest == old(stream.source.rest)[n.value..]
    ensures old(stream.source.FaultFree()) ==>
      stream.source.FaultFree() && (r.Ok? <==> SocksConnectLength(old(stream.source.rest)).Some?)
  {
    var head := SocksReadHead(stream);
    r := Err(Io);
    if head.Ok? {
      var skipped := stream.ReadExact(head.value);
      r := if skipped.Some? then Ok(()) else Err(Io);
    }
  }

  /** Sends the connect request and reads its reply. */
  method SocksFinish(stream: Stream, request: seq<byte>) returns (r: Result<(), ReadError>)
    requires !stream.closed
    modifies stream`source, stream`written
    ensures Suffix(stream.source.rest, old(stream.source.rest))
    ensures old(stream.written) <= stream.written <= old(stream.written) + request
    ensures r.Ok? ==> stream.written == old(stream.written) + request
    ensures r.Ok? ==> var n := SocksConnectLength(old(stream.source.rest));
      n.Some? && n.value <= |old(stream.source.rest)| && stream.source.rest == old(stream.source.rest)[n.value..]
    ensures old(stream.Reliable()) ==>
      stream.Reliable() && (r.Ok? <==> SocksConnectLength(old(stream.source.rest)).Some?)
  {
    var sent := stream.WriteAll(request);
    r := Err(Io);
    if sent {
      r := SocksReadReply(stream);
    }
  }

  method Socks5Connect(proxy: ProxyConfig, stream: Stream, target: Target) returns (r: Result<(), ReadError>)
    requires !stream.closed
    modifies stream`source, stream`written
    ensures Suffix(stream.source.rest, old(stream.source.rest))
    ensures var script := SocksScript(proxy, target, AsksPassword(proxy, old(stream.source.rest)));
      && old(stream.written) <= stream.written <= old(stream.written) + script
      && (r.Ok? ==> stream.written == old(stream.written) + script)
    ensures r.Ok? ==> var n := SocksReplyLength(proxy, old(stream.source.rest));
      n.Some? && stream.source.rest == old(stream.source.rest)[n.value..]
    ensures r.Ok? ==> SocksFits(proxy, target, AsksPassword(proxy, old(stream.source.rest)))
    ensures old(stream.Reliable()) ==> stream.Reliable()
    ensures (old(stream.Reliable()) && SocksReplyLength(proxy, old(stream.source.rest)).Some?
        && SocksFits(proxy, target, AsksPassword(proxy, old(stream.source.rest)))) ==> r.Ok?
  {
    ghost var reply, w := stream.source.rest, stream.written;
    ghost var opening := SocksOpening(proxy, AsksPassword(proxy, reply));
    var host := Octets(target.host);
    var request := SocksRequest(host, target.port);
    r := SocksNegotiate(proxy, stream);
    PrefixGrows(stream.written, w, opening, request);
    if r.Ok? {
      if |host| > 255 {
        return Err(Rejected("SOCKS5 target host is too long"));
      }
      r := SocksFinish(stream, request);
      PrefixAfter(stream.written, w, opening, request);
    }
  }

  // ---------------------------------------------------------------- the opened tunnel

  /** A stream whose first bytes were already read: `prefix[offset..]` come first. */
  class PrefixedStream {
    const stream: Stream
    var prefix: seq<byte>
    var offset: nat

    constructor (stream: Stream, prefix: seq<byte>)
      ensures this.stream == stream && this.prefix == prefix && offset == 0
    {
      this.stream, this.prefix, this.offset := stream, prefix, 0;
    }

    predicate Valid()
      reads this
    {
      offset <= |prefix|
    }

    function Remaining(): seq<byte>
      requires Valid()
      reads this, stream`source
    {
      prefix[offset..] + stream.source.rest
    }

    /** Delivers the next bytes of `Remaining`, at least one while there are any and the stream
        does not fail; the stream cannot end or fail the read while prefix bytes remain. */
    method Read(cap: nat) returns (r: ReadResult)
      requires Valid() && cap > 0
      modifies this, stream`source
      ensures Valid()
      ensures r.Data? ==> 0 < |r.bytes| <= cap && r.bytes + Remaining() == old(Remaining())
      ensures !r.Data? ==> Remaining() == old(Remaining())
      ensures r.Eof? ==> Remaining() == []
      ensures old(offset < |prefix|) ==> r.Data? && stream.source == old(stream.source)
      ensures old(stream.source.FaultFree()) ==> stream.source.FaultFree() && !r.Failed?
    {
      if offset < |prefix| {
        var available := prefix[offset..];
        var n := if |available| < cap then |available| else cap;
        r := Data(available[..n]);
        offset := offset + n;
        if offset == |prefix| {
          prefix, offset := [], 0;
        }
        return;
      }
      r := stream.Read(cap);
    }
  }

  /** Length of the handshake reply that opens the tunnel. */
  function ReplyLength(proxy: ProxyConfig, reply: seq<byte>): (n: Option<nat>)
    ensures n.Some? ==> n.value <= |reply|
  {
    if proxy.kind.Socks5? then SocksReplyLength(proxy, reply) else HttpReplyLength(reply)
  }

  /** The bytes sent to the proxy before any of the client's. */
  function HandshakeScript(proxy: ProxyConfig, target: Target, reply: seq<byte>): seq<byte> {
    if proxy.kind.Socks5? then SocksScript(proxy, target, AsksPassword(proxy, reply))
    else Octets(ConnectRequest(proxy, target))
  }

  /** The proxy opens the tunnel and every length fits its field. */
  predicate HandshakeFits(proxy: ProxyConfig, target: Target, reply: seq<byte>) {
    && ReplyLength(proxy, reply).Some?
    && if proxy.kind.Socks5? then SocksFits(proxy, target, AsksPassword(proxy, reply))
       else ReplyLength(proxy, reply).value <= MAX_HTTP_HEADER + 1
  }

  /** `ProxyConfig::connect` on a connection that was opened (for HTTPS, its decrypted side). */
  method Connect(proxy: ProxyConfig, stream: Stream, target: Target) returns (r: Result<PrefixedStream, ReadError>)
    requires !stream.closed
    modifies stream`source, stream`written
    ensures var reply := old(stream.source.rest);
      var script := HandshakeScript(proxy, target, reply);
      && old(stream.written) <= stream.written <= old(stream.written) + script
      && (r.Ok? ==>
            && ReplyLength(proxy, reply).Some?
            && r.value.stream == stream && r.value.Valid()
            && r.value.Remaining() == reply[ReplyLength(proxy, reply).value..]
            && stream.written == old(stream.written) + script)
    ensures r.Ok? ==> fresh(r.value)
    ensures old(stream.Reliable()) ==> stream.Reliable()
    ensures old(stream.Reliable() && HandshakeFits(proxy, target, stream.source.rest)) ==> r.Ok?
  {
    if proxy.kind.Socks5? {
      var done := Socks5Connect(proxy, stream, target);
      if done.Err? {
        return Err(done.error);
      }
      var tunnel := new PrefixedStream(stream, []);
      return Ok(tunnel);
    }
    var leftover := HttpConnect(proxy, stream, target);
    if leftover.Err? {
      return Err(leftover.error);
    }
    var tunnel := new PrefixedStream(stream, leftover.value);
    return Ok(tunnel);
  }
}
