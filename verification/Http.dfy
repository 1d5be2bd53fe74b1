/** Reading an HTTP head and finding its Host header: src/http.rs. */
module Http {
  import opened Wrappers
  import opened Bytes
  import opened Search
  import opened Strings
  import opened Streams
  import opened Targets

  const MAX_HTTP_HEADER: nat := 64 * 1024

  const HEAD_END: string := "\r\n\r\n"

  const CRLFCRLF: seq<byte> := [13, 10, 13, 10]

  function HeaderEnd(buf: seq<byte>): (r: Option<nat>)
    ensures r.Some? ==> IsFirst(buf, CRLFCRLF, r.value)
    ensures r.None? <==> Lacks(buf, CRLFCRLF)
  {
    Find(buf, CRLFCRLF)
  }

  // ---------------------------------------------------------------- reading the head

  datatype HeadVerdict = Complete | Oversized

  function DecideHead(got: seq<byte>): Option<HeadVerdict> {
    if HeaderEnd(got).Some? then Some(Complete)
    else if |got| > MAX_HTTP_HEADER then Some(Oversized)
    else None
  }

  function HeadResult(r: Reading<HeadVerdict>): Result<seq<byte>, ReadError> {
    match r
    case Decided(Complete, buf) => Ok(buf)
    case Decided(Oversized, _) => Err(TooLarge)
    case Closed => Err(ClosedEarly)
    case Broken => Err(Io)
  }

  /** Reads of at most `chunk` bytes until the buffer holds a complete head. */
  function ReadHead(chunk: nat, src: Source): (Result<seq<byte>, ReadError>, Source)
    requires chunk > 0
  {
    var (r, s) := Accumulate(chunk, DecideHead, [], src);
    (HeadResult(r), s)
  }

  method ReadUntilHeaderEnd(stream: Stream) returns (r: Result<seq<byte>, ReadError>)
    modifies stream`source
    ensures (r, stream.source) == ReadHead(1024, old(stream.source))
  {
    var buf: seq<byte> := [];
    ghost var answer := Accumulate(1024, DecideHead, [], stream.source);
    while true
      invariant answer == Accumulate(1024, DecideHead, buf, stream.source)
      decreases |stream.source.rest|
    {
      var n := stream.Read(1024);
      if n.Failed? {
        return Err(Io);
      }
      if n.Eof? {
        return Err(ClosedEarly);
      }
      buf := buf + n.bytes;
      if HeaderEnd(buf).Some? {
        return Ok(buf);
      }
      if |buf| > MAX_HTTP_HEADER {
        return Err(TooLarge);
      }
    }
  }

  lemma HeadOfPrefix(buf: seq<byte>, more: seq<byte>)
    requires HeaderEnd(buf + more).Some?
    ensures HeaderEnd(buf).Some? <==> HeaderEnd(buf + more).value + 4 <= |buf|
    ensures HeaderEnd(buf).Some? ==> HeaderEnd(buf) == HeaderEnd(buf + more)
  {
    var end := HeaderEnd(buf + more).value;
    if end + 4 <= |buf| {
      AtPrefix(buf, more, CRLFCRLF, end);
    }
    if HeaderEnd(buf).Some? {
      FindStable(buf, more, CRLFCRLF);
    }
  }

  /** The buffer that was read and the bytes still unread are the stream, and its head ends
      where the stream's does: what is parsed does not depend on the chunks. */
  lemma HeadIsOfTheStream(chunk: nat, src: Source)
    requires chunk > 0
    ensures var (r, s) := ReadHead(chunk, src);
      && (r.Ok? ==>
            && r.value + s.rest == src.rest && HeaderEnd(r.value).Some?
            && HeaderEnd(r.value) == HeaderEnd(src.rest) && |r.value| <= MAX_HTTP_HEADER + chunk)
      && (src.FaultFree() ==> s.FaultFree() && r != Err(Io))
  {
    hide Accumulate, FindFrom, At;
    var p := AccumulateKeepsBytes(chunk, DecideHead, [], src);
    assert [] + src.rest == src.rest;
    var (r, s) := Accumulate(chunk, DecideHead, [], src);
    if r.Decided? {
      assert p == 0 || DecideHead(src.rest[..p]).None?;
      if r.verdict.Complete? {
        FindStable(r.buf, s.rest, CRLFCRLF);
      }
    }
  }

  lemma SmallHeadsAlwaysComplete(chunk: nat, src: Source)
    requires chunk > 0 && src.FaultFree()
    requires HeaderEnd(src.rest).Some? && HeaderEnd(src.rest).value + 4 <= MAX_HTTP_HEADER + 1
    ensures ReadHead(chunk, src).0.Ok?
  {
    var p := AccumulateKeepsBytes(chunk, DecideHead, [], src);
    assert [] + src.rest == src.rest;
    var (r, s) := Accumulate(chunk, DecideHead, [], src);
    if r.Decided? {
      HeadOfPrefix(r.buf, s.rest);
    }
  }

  /** A stream whose head ends past the cap, delivered byte by byte up to the cap. */
  lemma TrickledToTheCap(chunk: nat, all: seq<byte>, last: seq<Arrival>)
    requires chunk > 0 && HeaderEnd(all).Some? && HeaderEnd(all).value + 4 > MAX_HTTP_HEADER + 1
    ensures Accumulate(chunk, DecideHead, [], Source(all, Trickle(MAX_HTTP_HEADER, last)))
         == Accumulate(chunk, DecideHead, all[..MAX_HTTP_HEADER], Source(all[MAX_HTTP_HEADER..], last))
  {
    forall k | 0 < k <= MAX_HTTP_HEADER
      ensures DecideHead(all[..k]).None?
    {
      assert all == all[..k] + all[k..];
      HeadOfPrefix(all[..k], all[k..]);
    }
    assert all[..0] == [] && all[0..] == all;
    AccumulateTrickles(chunk, DecideHead, all, 0, MAX_HTTP_HEADER, last);
  }

  lemma LargeHeadsCanBeRefused(chunk: nat, all: seq<byte>)
    requires chunk > 0 && HeaderEnd(all).Some? && HeaderEnd(all).value + 4 > MAX_HTTP_HEADER + 1
    ensures exists plan: seq<Arrival> :: Source(all, plan).FaultFree() && !ReadHead(chunk, Source(all, plan)).0.Ok?
  {
    hide FindFrom, Accumulate, Trickle;
    var plan := Trickle(MAX_HTTP_HEADER, [Arrive(1)]);
    TrickleIsFaultFree(MAX_HTTP_HEADER, [Arrive(1)], all);
    TrickledToTheCap(chunk, all, [Arrive(1)]);
    var got := all[..MAX_HTTP_HEADER + 1];
    assert all == got + all[MAX_HTTP_HEADER + 1..];
    HeadOfPrefix(got, all[MAX_HTTP_HEADER + 1..]);
    assert all[MAX_HTTP_HEADER..][..1] == all[MAX_HTTP_HEADER..MAX_HTTP_HEADER + 1];
    AccumulateDecides(chunk, DecideHead, all, MAX_HTTP_HEADER, 1, [Arrive(1)]);
    assert !ReadHead(chunk, Source(all, plan)).0.Ok?;
  }

  lemma HeadsWithinAChunkCanComplete(chunk: nat, all: seq<byte>)
    requires chunk > 0 && HeaderEnd(all).Some?
    requires MAX_HTTP_HEADER + 1 < HeaderEnd(all).value + 4 <= MAX_HTTP_HEADER + chunk
    ensures exists plan: seq<Arrival> :: Source(all, plan).FaultFree() && ReadHead(chunk, Source(all, plan)).0.Ok?
  {
    hide FindFrom, Accumulate, Trickle;
    var plan := Trickle(MAX_HTTP_HEADER, []);
    TrickleIsFaultFree(MAX_HTTP_HEADER, [], all);
    TrickledToTheCap(chunk, all, []);
    var rest := all[MAX_HTTP_HEADER..];
    var n := if chunk < |rest| then chunk else |rest|;
    var got := all[..MAX_HTTP_HEADER + n];
    assert all == got + all[MAX_HTTP_HEADER + n..];
    HeadOfPrefix(got, all[MAX_HTTP_HEADER + n..]);
    assert rest[..n] == all[MAX_HTTP_HEADER..MAX_HTTP_HEADER + n];
    AccumulateDecides(chunk, DecideHead, all, MAX_HTTP_HEADER, n, []);
    assert ReadHead(chunk, Source(all, plan)).0.Ok?;
  }

  lemma HeadsBeyondAChunkFail(chunk: nat, src: Source)
    requires chunk > 0 && HeaderEnd(src.rest).Some? && HeaderEnd(src.rest).value + 4 > MAX_HTTP_HEADER + chunk
    ensures !ReadHead(chunk, src).0.Ok?
  {
    HeadIsOfTheStream(chunk, src);
  }

  /** The cap, exactly: with the first blank line ending at byte `end + 4`, every chunking of
      a failure-free stream completes the head iff that is at most 65537, and some chunking
      does iff it is at most 65536 plus one chunk. */
  lemma HeadBounds(chunk: nat, all: seq<byte>)
    requires chunk > 0 && HeaderEnd(all).Some?
    ensures (forall plan: seq<Arrival> | Source(all, plan).FaultFree() :: ReadHead(chunk, Source(all, plan)).0.Ok?)
       <==> HeaderEnd(all).value + 4 <= 65537
    ensures (exists plan: seq<Arrival> :: Source(all, plan).FaultFree() && ReadHead(chunk, Source(all, plan)).0.Ok?)
       <==> HeaderEnd(all).value + 4 <= 65536 + chunk
  {
    var size := HeaderEnd(all).value + 4;
    forall plan: seq<Arrival> | Source(all, plan).FaultFree()
      ensures size <= MAX_HTTP_HEADER + 1 ==> ReadHead(chunk, Source(all, plan)).0.Ok?
      ensures size > MAX_HTTP_HEADER + chunk ==> !ReadHead(chunk, Source(all, plan)).0.Ok?
    {
      if size <= MAX_HTTP_HEADER + 1 {
        SmallHeadsAlwaysComplete(chunk, Source(all, plan));
      }
      if size > MAX_HTTP_HEADER + chunk {
        HeadsBeyondAChunkFail(chunk, Source(all, plan));
      }
    }
    if size <= MAX_HTTP_HEADER + 1 {
      assert Source(all, []).FaultFree() && ReadHead(chunk, Source(all, [])).0.Ok?;
    } else {
      LargeHeadsCanBeRefused(chunk, all);
      if size <= MAX_HTTP_HEADER + chunk {
        HeadsWithinAChunkCanComplete(chunk, all);
      }
    }
  }

  // ---------------------------------------------------------------- the Host header

  datatype HttpError = Incomplete | NotUtf8 | NoHost | BadHost(error: HostError)

  predicate IsHostLine(line: string) {
    match IndexOf(line, ':')
    case Some(i) => Lower(Trim(line[..i])) == "host"
    case None => false
  }

  function HostOfLine(line: string): Result<Target, HttpError>
    requires IsHostLine(line)
  {
    match ParseHostPort(Trim(line[IndexOf(line, ':').value + 1..]), 80)
    case Ok(t) => Ok(t)
    case Err(e) => Err(BadHost(e))
  }

  function FindHost(lines: seq<string>): Result<Target, HttpError> {
    if lines == [] then Err(NoHost)
    else if IsHostLine(lines[0]) then HostOfLine(lines[0])
    else FindHost(lines[1..])
  }

  function ParseHttpHost(header: seq<byte>): Result<Target, HttpError> {
    match HeaderEnd(header)
    case None => Err(Incomplete)
    case Some(end) =>
      if !ValidUtf8(header[..end]) then Err(NotUtf8)
      else FindHost(Split(Text(header[..end]), "\r\n")[1..])
  }

  function HostReason(e: HttpError): string {
    match e
    case Incomplete => "incomplete HTTP header"
    case NotUtf8 => "HTTP header is not valid UTF-8"
    case NoHost => "HTTP Host header not found"
    case BadHost(EmptyHost) => "empty host"
    case BadHost(UnclosedBracket) => "invalid bracketed IPv6 host"
    case BadHost(BadSuffix) => "invalid bracketed host suffix"
    case BadHost(InvalidPort) => "invalid port"
  }

  /** The target of an incoming request and the bytes read to find it. */
  function HttpTarget(src: Source): (Result<(Target, seq<byte>), ReadError>, Source) {
    var (head, s) := ReadHead(1024, src);
    match head
    case Err(e) => (Err(e), s)
    case Ok(header) =>
      match ParseHttpHost(header)
      case Ok(t) => (Ok((t, header)), s)
      case Err(e) => (Err(Rejected(HostReason(e))), s)
  }

  method ReadHttpTarget(stream: Stream) returns (r: Result<(Target, seq<byte>), ReadError>)
    modifies stream`source
    ensures (r, stream.source) == HttpTarget(old(stream.source))
  {
    var header := ReadUntilHeaderEnd(stream);
    if header.Err? {
      return Err(header.error);
    }
    var target := ParseHttpHost(header.value);
    if target.Err? {
      return Err(Rejected(HostReason(target.error)));
    }
    return Ok((target.value, header.value));
  }

  /** What follows a complete head does not matter. */
  lemma SameHeadSameHost(header: seq<byte>, more: seq<byte>)
    requires HeaderEnd(header).Some?
    ensures ParseHttpHost(header + more) == ParseHttpHost(header)
  {
    FindStable(header, more, CRLFCRLF);
    var end := HeaderEnd(header).value;
    assert (header + more)[..end] == header[..end];
  }

  /** The target is the one the whole stream names, under every chunking, and the bytes read
      with the bytes unread are the stream. */
  lemma HttpTargetIsOfTheStream(src: Source)
    ensures var (r, s) := HttpTarget(src);
      && (r.Ok? ==> r.value.1 + s.rest == src.rest && ParseHttpHost(src.rest) == Ok(r.value.0))
      && Suffix(s.rest, src.rest)
      && (src.FaultFree() ==> s.FaultFree())
  {
    HeadIsOfTheStream(1024, src);
    AccumulateLeavesSuffix(1024, DecideHead, [], src);
    var (head, s) := ReadHead(1024, src);
    if head.Ok? {
      SameHeadSameHost(head.value, s.rest);
    }
  }

  /** Every request whose head ends by byte 65537 gets the parser's answer, under every chunking. */
  lemma SmallRequestsGetTheParsersAnswer(src: Source)
    requires src.FaultFree() && HeaderEnd(src.rest).Some? && HeaderEnd(src.rest).value + 4 <= 65537
    ensures var r := HttpTarget(src).0;
      match ParseHttpHost(src.rest)
      case Ok(t) => r.Ok? && r.value.0 == t
      case Err(e) => r == Err(Rejected(HostReason(e)))
  {
    hide ParseHttpHost, HeaderEnd, ReadHead;
    SmallHeadsAlwaysComplete(1024, src);
    HeadIsOfTheStream(1024, src);
    var (head, s) := ReadHead(1024, src);
    SameHeadSameHost(head.value, s.rest);
  }

  // ---------------------------------------------------------------- where a head ends

  predicate IsBreak(c: char) {
    c == '\r' || c == '\n'
  }

  /** A visible character stands where the texts meet, on one side at least. */
  predicate Seam(a: string, c: string) {
    a != "" && c != "" ==> !IsBreak(a[|a| - 1]) || !IsBreak(c[0])
  }

  lemma HeadEndIsBreaks(s: string, i: int)
    requires At(s, HEAD_END, i)
    ensures IsBreak(s[i]) && IsBreak(s[i + 1]) && IsBreak(s[i + 2]) && IsBreak(s[i + 3])
    ensures s[i] == '\r' && s[i + 2] == '\r'
  {
    assert s[i..i + 4] == [s[i], s[i + 1], s[i + 2], s[i + 3]];
  }

  /** No blank line spreads over a seam. */
  lemma HeadEndBySeam(a: string, c: string, i: int)
    requires Seam(a, c) && At(a + c, HEAD_END, i)
    ensures At(a, HEAD_END, i) || At(c, HEAD_END, i - |a|)
  {
    if i + 4 <= |a| {
      AtPrefix(a, c, HEAD_END, i);
    } else if |a| <= i {
      AtSuffix(a, c, HEAD_END, i);
    } else {
      HeadEndIsBreaks(a + c, i);
    }
  }

  lemma AppendedHeadEnd(a: string, c: string, i: int)
    requires Seam(a, c) && Lacks(a, HEAD_END)
    ensures At(a + c, HEAD_END, i) <==> |a| <= i && At(c, HEAD_END, i - |a|)
  {
    if At(a + c, HEAD_END, i) {
      HeadEndBySeam(a, c, i);
      assert |a| <= i by {
        assert At(c, HEAD_END, i - |a|);
      }
    }
    if |a| <= i {
      AtSuffix(a, c, HEAD_END, i);
    }
  }

  lemma FindBySeam(a: string, c: string)
    requires Seam(a, c) && Lacks(a, HEAD_END)
    ensures Find(a + c, HEAD_END) ==
      if Find(c, HEAD_END).Some? then Some(|a| + Find(c, HEAD_END).value) else None
  {
    hide FindFrom, At;
    forall i
      ensures At(a + c, HEAD_END, i) <==> |a| <= i && At(c, HEAD_END, i - |a|)
    {
      AppendedHeadEnd(a, c, i);
    }
    if Find(c, HEAD_END).Some? {
      var n := Find(c, HEAD_END).value;
      assert At(c, HEAD_END, |a| + n - |a|);
      FindIs(a + c, HEAD_END, |a| + n);
    } else {
      assert Lacks(a + c, HEAD_END);
    }
  }

  lemma AtOctets(s: string, i: int)
    requires IsOctets(s)
    ensures At(Octets(s), CRLFCRLF, i) <==> At(s, HEAD_END, i)
  {
    if 0 <= i && i + 4 <= |s| {
      var b := Octets(s);
      assert b[i..i + 4] == [b[i], b[i + 1], b[i + 2], b[i + 3]];
      assert s[i..i + 4] == [s[i], s[i + 1], s[i + 2], s[i + 3]];
    }
  }

  lemma HeaderEndOfText(s: string)
    requires IsOctets(s)
    ensures HeaderEnd(Octets(s)) == Find(s, HEAD_END)
  {
    forall j
      ensures At(Octets(s), CRLFCRLF, j) <==> At(s, HEAD_END, j)
    {
      AtOctets(s, j);
    }
    if Find(s, HEAD_END).Some? {
      FindIs(Octets(s), CRLFCRLF, Find(s, HEAD_END).value);
    }
  }

  lemma OneReturnLacksHeadEnd(x: string, y: string)
    requires '\r' !in x && '\r' !in y
    ensures Lacks(x + "\r\n" + y, HEAD_END)
  {
    var s := x + "\r\n" + y;
    assert forall k :: 0 <= k < |s| && s[k] == '\r' ==> k == |x|;
    forall i
      ensures !At(s, HEAD_END, i)
    {
      if At(s, HEAD_END, i) {
        HeadEndIsBreaks(s, i);
      }
    }
  }

  lemma HeadEndFits(h: string)
    requires Find(h, HEAD_END).Some?
    ensures Find(h, HEAD_END).value + 4 <= |h|
  {
  }

  /** A text printed twice between visible characters, before the end of a head: the head ends
      where it should exactly when the text has no blank line. */
  lemma HeadEndsAfterTwice(a: string, h: string, b: string, c: string)
    requires Lacks(a, HEAD_END) && Lacks(b, HEAD_END) && Find(c, HEAD_END) == Some(|c| - 4)
    requires a != "" && !IsBreak(a[|a| - 1]) && c != "" && !IsBreak(c[0])
    requires b != "" && !IsBreak(b[0]) && !IsBreak(b[|b| - 1])
    ensures var s := a + (h + (b + (h + c)));
      Find(s, HEAD_END) == Some(|s| - 4) <==> Find(h, HEAD_END).None?
  {
    hide FindFrom, At;
    var s3 := h + c;
    var s2 := b + s3;
    var s1 := h + s2;
    FindBySeam(a, s1);
    if Lacks(h, HEAD_END) {
      FindBySeam(h, c);
      FindBySeam(b, s3);
      FindBySeam(h, s2);
    } else {
      FindStable(h, s2, HEAD_END);
      HeadEndFits(h);
    }
  }

  // ---------------------------------------------------------------- well-formed requests

  lemma {:induction false} FindHostSkips(lines: seq<string>, k: nat)
    requires k < |lines| && IsHostLine(lines[k])
    requires forall i :: 0 <= i < k ==> !IsHostLine(lines[i])
    ensures FindHost(lines) == HostOfLine(lines[k])
  {
    hide IsHostLine, HostOfLine;
    if k > 0 {
      FindHostSkips(lines[1..], k - 1);
    }
  }

  lemma CrlfCannotOpen(line: string, rest: string)
    requires line != "" && Lacks(line, "\r\n") && rest != "" && rest[0] == '\r'
    ensures !At(line + rest, "\r\n", 0)
  {
    if |line| >= 2 {
      AtPrefix(line, rest, "\r\n", 0);
    } else {
      assert (line + rest)[0..2] == [line[0], '\r'];
    }
  }

  lemma NoBlankLineStep(first: string, rest: string, i: nat)
    requires Lacks(first, "\r\n") && !At(rest, "\r\n", 0)
    requires At(first + "\r\n" + rest, HEAD_END, i)
    ensures i >= |first| + 2 && At(rest, HEAD_END, i - |first| - 2)
  {
    hide FindFrom;
    var s := first + "\r\n" + rest;
    var a := first + "\r\n";
    FirstAfter(first, "\r\n", rest);
    assert s[i..i + 4] == HEAD_END;
    assert s[i..i + 2] == s[i..i + 4][..2] == "\r\n" && s[i + 2..i + 4] == s[i..i + 4][2..] == "\r\n";
    assert At(s, "\r\n", i) && At(s, "\r\n", i + 2);
    assert i >= |first|;
    AtSuffix(a, rest, "\r\n", i + 2);
    assert i != |first|;
    assert s[|first| + 1] == '\n' && s[i] == '\r';
    AtSuffix(a, rest, HEAD_END, i);
  }

  lemma {:induction false} FirstBlankLine(lines: seq<string>, i: nat)
    requires lines != []
    requires forall k :: 0 <= k < |lines| ==> Lacks(lines[k], "\r\n") && (k > 0 ==> lines[k] != "")
    requires At(Join(lines, "\r\n") + HEAD_END, HEAD_END, i)
    ensures i >= |Join(lines, "\r\n")|
    decreases |lines|
  {
    var s := Join(lines, "\r\n") + HEAD_END;
    if |lines| == 1 {
      assert s == lines[0] + "\r\n" + "\r\n";
      FirstAfter(lines[0], "\r\n", "\r\n");
      assert s[i..i + 4] == HEAD_END;
      assert s[i..i + 2] == s[i..i + 4][..2] == "\r\n";
      assert At(s, "\r\n", i);
    } else {
      var tail := Join(lines[1..], "\r\n");
      var rest := tail + HEAD_END;
      assert s == lines[0] + "\r\n" + rest;
      if |lines| == 2 {
        CrlfCannotOpen(lines[1], HEAD_END);
      } else {
        var after := "\r\n" + Join(lines[2..], "\r\n") + HEAD_END;
        assert lines[1..][1..] == lines[2..];
        assert rest == lines[1] + after;
        CrlfCannotOpen(lines[1], after);
      }
      NoBlankLineStep(lines[0], rest, i);
      FirstBlankLine(lines[1..], i - |lines[0]| - 2);
    }
  }

  lemma {:induction false} JoinIsUtf8(lines: seq<string>)
    requires lines != [] && forall k :: 0 <= k < |lines| ==> IsUtf8(lines[k])
    ensures IsUtf8(Join(lines, "\r\n"))
  {
    if |lines| > 1 {
      JoinIsUtf8(lines[1..]);
      AsciiTextIsUtf8("\r\n");
      Utf8Concat(lines[0], "\r\n");
      Utf8Concat(lines[0] + "\r\n", Join(lines[1..], "\r\n"));
    }
  }

  /** A request head: a start line and header lines, each ended, then a blank line. */
  function RequestHead(lines: seq<string>): string
    requires lines != []
  {
    Join(lines, "\r\n") + HEAD_END
  }

  predicate WellFormedLine(line: string) {
    line != "" && IsUtf8(line) && Find(line, "\r\n").None?
  }

  lemma HeadEndEnds(text: string)
    requires IsOctets(text)
    ensures At(text + HEAD_END, HEAD_END, |text|) && IsOctets(text + HEAD_END)
  {
  }

  lemma HeadEndsAfterItsLines(lines: seq<string>, text: string)
    requires lines != [] && forall i :: 0 <= i < |lines| ==> WellFormedLine(lines[i])
    requires text == Join(lines, "\r\n") && IsOctets(text)
    ensures HeaderEnd(Octets(text + HEAD_END)) == Some(|text|)
  {
    hide IsUtf8, FindFrom, HeaderEnd, Join, At, Octets;
    var s := text + HEAD_END;
    HeadEndEnds(text);
    forall j | 0 <= j < |text|
      ensures !At(s, HEAD_END, j)
    {
      if At(s, HEAD_END, j) {
        FirstBlankLine(lines, j);
      }
    }
    FindIs(s, HEAD_END, |text|);
    HeaderEndOfText(s);
  }

  lemma ParseOfText(header: seq<byte>, text: string)
    requires HeaderEnd(header) == Some(|text|) && header[..|text|] == Octets(text) && IsUtf8(text)
    ensures ParseHttpHost(header) == FindHost(Split(text, "\r\n")[1..])
  {
    TextOfOctets(text);
  }

  lemma OctetsOfFront(text: string, more: string)
    ensures Octets(text + more)[..|text|] == Octets(text)
  {
    OctetsOfConcat(text, more);
  }

  lemma ParseOfLines(lines: seq<string>, text: string)
    requires lines != [] && forall i :: 0 <= i < |lines| ==> WellFormedLine(lines[i])
    requires text == Join(lines, "\r\n")
    ensures HeaderEnd(Octets(text + HEAD_END)) == Some(|text|)
    ensures ParseHttpHost(Octets(text + HEAD_END)) == FindHost(lines[1..])
  {
    JoinIsUtf8(lines);
    HeadEndsAfterItsLines(lines, text);
    OctetsOfFront(text, HEAD_END);
    ParseOfText(Octets(text + HEAD_END), text);
    SplitOfJoin(lines, "\r\n");
  }

  lemma FirstHostAmong(lines: seq<string>, k: nat)
    requires 0 < k < |lines| && IsHostLine(lines[k]) && forall i :: 0 < i < k ==> !IsHostLine(lines[i])
    ensures FindHost(lines[1..]) == HostOfLine(lines[k])
  {
    FindHostSkips(lines[1..], k - 1);
  }

  lemma HeadParses(lines: seq<string>, body: seq<byte>)
    requires lines != [] && forall i :: 0 <= i < |lines| ==> WellFormedLine(lines[i])
    ensures HeaderEnd(Octets(RequestHead(lines))) == Some(|RequestHead(lines)| - 4)
    ensures ParseHttpHost(Octets(RequestHead(lines)) + body) == FindHost(lines[1..])
  {
    ParseOfLines(lines, Join(lines, "\r\n"));
    SameHeadSameHost(Octets(RequestHead(lines)), body);
  }

  /** A well-formed request goes to the target of its first Host header, whatever its start
      line, its other headers and its body are. */
  lemma RequestGoesToFirstHost(lines: seq<string>, k: nat, body: seq<byte>)
    requires forall i :: 0 <= i < |lines| ==> WellFormedLine(lines[i])
    requires 0 < k < |lines| && IsHostLine(lines[k]) && forall i :: 0 < i < k ==> !IsHostLine(lines[i])
    ensures ParseHttpHost(Octets(RequestHead(lines)) + body) == HostOfLine(lines[k])
  {
    HeadParses(lines, body);
    FirstHostAmong(lines, k);
  }

  // ---------------------------------------------------------------- header names and values

  lemma {:induction false} BlankLacksColon(s: string)
    requires Blank(s)
    ensures ':' !in s
    decreases |s|
  {
    if s != "" {
      var w := SpaceWidth(s);
      BlankLacksColon(s[w..]);
      assert forall i :: w <= i < |s| ==> s[i] == s[w..][i - w];
    }
  }

  /** The line is a Host header, and names this target. */
  predicate LineNames(line: string, t: Target) {
    IsHostLine(line) && HostOfLine(line) == Ok(t)
  }

  lemma HeaderLineIs(name: string, value: string)
    requires ':' !in name
    ensures IsHostLine(name + ":" + value) <==> Lower(Trim(name)) == "host"
    ensures Lower(Trim(name)) == "host" && ParseHostPort(Trim(value), 80).Ok? ==>
      LineNames(name + ":" + value, ParseHostPort(Trim(value), 80).value)
  {
    hide Trim, Lower, IndexOf, ParseHostPort;
    var line := name + ":" + value;
    FirstIndexIs(line, ':', |name|);
    assert line[..|name|] == name && line[|name| + 1..] == value;
  }

  lemma LowerIsHost(name: string)
    ensures Lower(name) == "host" <==>
            |name| == 4 && forall i :: 0 <= i < 4 ==> name[i] == "host"[i] || name[i] == "HOST"[i]
  {
    if |name| == 4 {
      assert forall i :: 0 <= i < 4 ==>
        (LowerChar(name[i]) == "host"[i] <==> name[i] == "host"[i] || name[i] == "HOST"[i]);
      assert Lower(name) == "host" <==> forall i :: 0 <= i < 4 ==> Lower(name)[i] == "host"[i];
    }
  }

  /** A header is the Host header exactly when its name, without the white space around it, is
      spelled host in letters of either case. */
  lemma HostNamesExactly(before: string, name: string, after: string, value: string)
    requires Blank(before) && Blank(after) && ':' !in name
    requires name != "" && SpaceWidth(name) == 0 && EndSpaceWidth(name) == 0
    ensures IsHostLine(before + name + after + ":" + value) <==>
            |name| == 4 && forall i :: 0 <= i < 4 ==> name[i] == "host"[i] || name[i] == "HOST"[i]
  {
    hide IsHostLine, Trim, SpaceWidth, EndSpaceWidth;
    BlankLacksColon(before);
    BlankLacksColon(after);
    TrimPadded(before, name, after);
    HeaderLineIs(before + name + after, value);
    LowerIsHost(name);
  }

  /** A Host header without a port names port 80, whatever white space surrounds the host. */
  lemma HostLineWithoutPort(name: string, before: string, host: string, after: string)
    requires ':' !in name && Lower(Trim(name)) == "host" && Blank(before) && Blank(after)
    requires host != "" && ':' !in host && host[0] != '[' && SpaceWidth(host) == 0 && EndSpaceWidth(host) == 0
    ensures LineNames(name + ":" + (before + host + after), Target(host, 80))
  {
    hide Trim, SpaceWidth, EndSpaceWidth, Lower, ParseHostPort, LineNames, Blank;
    TrimPadded(before, host, after);
    HostWithoutPort(host, 80);
    HeaderLineIs(name, before + host + after);
  }

  lemma OneBlank()
    ensures Blank(" ") && Blank("")
  {
    assert " "[1..] == "";
  }

  lemma NameTrims()
    ensures Trim("Host") == "Host"
  {
    assert "Host"[3..] == "t";
    VisibleEnd("Host");
  }

  lemma LowerOfHost()
    ensures Lower("Host") == "host"
  {
    assert |Lower("Host")| == 4;
  }

  lemma HostNameTrims()
    ensures Lower(Trim("Host")) == "host"
  {
    hide Trim, TrimStart, TrimEnd;
    NameTrims();
    LowerOfHost();
  }

  lemma PlainHostLine(host: string)
    requires host != "" && ':' !in host && host[0] != '[' && SpaceWidth(host) == 0 && EndSpaceWidth(host) == 0
    ensures LineNames("Host: " + host, Target(host, 80))
  {
    hide Trim, SpaceWidth, EndSpaceWidth, Lower, LineNames;
    HostNameTrims();
    OneBlank();
    HostLineWithoutPort("Host", " ", host, "");
    assert "Host: " + host == "Host" + ":" + (" " + host + "");
  }

  /** The commonest request reaches its host on port 80. */
  lemma RequestWithoutPort(lines: seq<string>, k: nat, host: string, body: seq<byte>)
    requires forall i :: 0 <= i < |lines| ==> WellFormedLine(lines[i])
    requires 0 < k < |lines| && lines[k] == "Host: " + host && forall i :: 0 < i < k ==> !IsHostLine(lines[i])
    requires host != "" && ':' !in host && host[0] != '[' && SpaceWidth(host) == 0 && EndSpaceWidth(host) == 0
    ensures ParseHttpHost(Octets(RequestHead(lines)) + body) == Ok(Target(host, 80))
  {
    hide IsHostLine, HostOfLine, ParseHttpHost, WellFormedLine, SpaceWidth, EndSpaceWidth;
    PlainHostLine(host);
    RequestGoesToFirstHost(lines, k, body);
  }

  /** Line `k` is a Host header with this name and value: the first colon separates them. */
  ghost predicate HostAt(lines: seq<string>, k: nat, name: string, value: string) {
    0 < k < |lines| && lines[k] == name + ":" + value && ':' !in name && Lower(Trim(name)) == "host"
  }

  lemma CutAtColon(line: string)
    requires ':' in line
    ensures var i := IndexOf(line, ':');
      && i.Some? && ':' !in line[..i.value]
      && line == line[..i.value] + ":" + line[i.value + 1..]
  {
    var i := IndexOf(line, ':').value;
    assert line == line[..i] + [line[i]] + line[i + 1..];
  }

  lemma HostLinesAreHosts(lines: seq<string>, k: nat)
    requires 0 < k < |lines|
    ensures IsHostLine(lines[k]) <==> exists name, value :: HostAt(lines, k, name, value)
  {
    hide Lower, Trim, IndexOf;
    var line := lines[k];
    if ':' in line {
      CutAtColon(line);
      var i := IndexOf(line, ':').value;
      assert IsHostLine(line) ==> HostAt(lines, k, line[..i], line[i + 1..]);
    }
    forall name, value | HostAt(lines, k, name, value)
      ensures IsHostLine(line)
    {
      HeaderLineIs(name, value);
    }
  }

  lemma {:induction false} FindHostExactly(lines: seq<string>, n: nat, t: Target)
    requires 0 < n <= |lines|
    ensures FindHost(lines[n..]) == Ok(t)
       <==> exists k: nat :: n <= k < |lines| && LineNames(lines[k], t)
                             && forall i :: n <= i < k ==> !IsHostLine(lines[i])
    decreases |lines| - n
  {
    hide IsHostLine, HostOfLine;
    if n < |lines| {
      assert lines[n..][1..] == lines[n + 1..] && lines[n..][0] == lines[n];
      FindHostExactly(lines, n + 1, t);
      if !IsHostLine(lines[n]) && FindHost(lines[n + 1..]) == Ok(t) {
        var k: nat :| n + 1 <= k < |lines| && LineNames(lines[k], t)
                      && forall i :: n + 1 <= i < k ==> !IsHostLine(lines[i]);
        assert forall i :: n <= i < k ==> !IsHostLine(lines[i]);
      }
    }
  }

  /** Line `k` is the first Host header, and its value names this target, by default on port 80. */
  ghost predicate FirstHostNames(lines: seq<string>, k: nat, name: string, value: string, t: Target) {
    && HostAt(lines, k, name, value) && ParseHostPort(Trim(value), 80) == Ok(t)
    && forall i: nat, n, v :: i < k ==> !HostAt(lines, i, n, v)
  }

  lemma LineNamesWhat(line: string, name: string, value: string, t: Target)
    requires line == name + ":" + value && ':' !in name && Lower(Trim(name)) == "host"
    ensures LineNames(line, t) <==> ParseHostPort(Trim(value), 80) == Ok(t)
  {
    hide Trim, Lower, IndexOf, ParseHostPort;
    FirstIndexIs(line, ':', |name|);
    assert line[..|name|] == name && line[|name| + 1..] == value;
  }

  lemma LineNamesIsHost(line: string, t: Target)
    requires LineNames(line, t)
    ensures IsHostLine(line)
  {
  }

  lemma FirstHostIsNamed(lines: seq<string>, k: nat, t: Target)
    requires 0 < k < |lines| && LineNames(lines[k], t) && forall i :: 0 < i < k ==> !IsHostLine(lines[i])
    ensures exists name, value :: FirstHostNames(lines, k, name, value, t)
  {
    hide IsHostLine, HostOfLine, Trim, Lower, ParseHostPort, LineNames;
    forall i: nat, n, v | i < k
      ensures !HostAt(lines, i, n, v)
    {
      if 0 < i {
        HostLinesAreHosts(lines, i);
      }
    }
    LineNamesIsHost(lines[k], t);
    HostLinesAreHosts(lines, k);
    var name, value :| HostAt(lines, k, name, value);
    LineNamesWhat(lines[k], name, value, t);
    assert FirstHostNames(lines, k, name, value, t);
  }

  lemma FirstHostDecides(lines: seq<string>, t: Target)
    requires lines != []
    ensures FindHost(lines[1..]) == Ok(t)
       <==> exists k: nat, name, value :: FirstHostNames(lines, k, name, value, t)
  {
    hide IsHostLine, HostOfLine, LineNames, Trim, Lower, ParseHostPort, FindHost;
    FindHostExactly(lines, 1, t);
    if FindHost(lines[1..]) == Ok(t) {
      var k: nat :| 1 <= k < |lines| && LineNames(lines[k], t) && forall i :: 1 <= i < k ==> !IsHostLine(lines[i]);
      FirstHostIsNamed(lines, k, t);
    }
    forall k: nat, name, value | FirstHostNames(lines, k, name, value, t)
      ensures FindHost(lines[1..]) == Ok(t)
    {
      LineNamesWhat(lines[k], name, value, t);
      forall i | 1 <= i < k
        ensures !IsHostLine(lines[i])
      {
        HostLinesAreHosts(lines, i);
      }
    }
  }

  /** The first Host header among the lines of the text names this target. */
  ghost predicate TextNames(text: string, t: Target) {
    exists k: nat, name, value :: FirstHostNames(Split(text, "\r\n"), k, name, value, t)
  }

  lemma TextDecides(text: string, t: Target)
    ensures FindHost(Split(text, "\r\n")[1..]) == Ok(t) <==> TextNames(text, t)
  {
    hide FindHost, FirstHostNames;
    FirstHostDecides(Split(text, "\r\n"), t);
  }

  /** What the parser accepts, and as what, of all buffers: a head that is UTF-8 goes to the
      target of its first Host header, and everything else is refused. */
  lemma TargetsExactly(buf: seq<byte>, t: Target)
    ensures ParseHttpHost(buf) == Ok(t)
       <==> && HeaderEnd(buf).Some? && ValidUtf8(buf[..HeaderEnd(buf).value])
            && TextNames(Text(buf[..HeaderEnd(buf).value]), t)
  {
    hide HeaderEnd, FindHost, TextNames, Split;
    if HeaderEnd(buf).Some? {
      TextDecides(Text(buf[..HeaderEnd(buf).value]), t);
    }
  }

  // ---------------------------------------------------------------- a printed Host header

  function HostLine(t: Target): string {
    "Host: " + FormatTarget(t)
  }

  /** The hosts that a printed Host header gives back. */
  predicate ReadsBack(host: string) {
    && Printable(host) && Find(host, "\r\n").None?
    && (host == "" || ':' in host || SpaceWidth(host) == 0)
  }

  lemma FormattedEnds(t: Target)
    ensures var v := FormatTarget(t);
      && v != "" && EndSpaceWidth(v) == 0 && TrimEnd(v) == v
      && (SpaceWidth(v) == 0 <==> t.host == "" || ':' in t.host || SpaceWidth(t.host) == 0)
  {
    var port := Decimal(t.port);
    var v := FormatTarget(t);
    assert IsDigit(port[|port| - 1]) && v[|v| - 1] == port[|port| - 1];
    VisibleEnd(v);
    if t.host != "" && (':' !in t.host || OpensBracket(t.host)) {
      SpaceStays(t.host, ":" + port);
      assert v == t.host + (":" + port);
    }
  }

  /** Plain text around a text keeps it a line. */
  lemma Wrapped(before: string, s: string, after: string)
    requires IsUtf8(s)
    requires forall i :: 0 <= i < |before| ==> IsAsciiChar(before[i]) && before[i] != '\r'
    requires forall i :: 0 <= i < |after| ==> IsAsciiChar(after[i]) && after[i] != '\r' && after[i] != '\n'
    ensures IsUtf8(before + s + after)
    ensures Lacks(s, "\r\n") ==> Lacks(before + s + after, "\r\n")
  {
    hide IsUtf8;
    AsciiTextIsUtf8(before);
    AsciiTextIsUtf8(after);
    Utf8Concat(before, s);
    Utf8Concat(before + s, after);
    if Lacks(s, "\r\n") {
      NoReturnLacksCrlf(before);
      NoReturnLacksCrlf(after);
      CrlfNeedsBoth(before, s);
      CrlfNeedsBoth(before + s, after);
    }
  }

  /** What is printed around a host. */
  function HostPrefix(t: Target): string {
    if ':' in t.host && !OpensBracket(t.host) then "[" else ""
  }

  function HostSuffix(t: Target): string {
    (if ':' in t.host && !OpensBracket(t.host) then "]:" else ":") + Decimal(t.port)
  }

  lemma FormattedParts(t: Target)
    ensures FormatTarget(t) == HostPrefix(t) + t.host + HostSuffix(t)
  {
  }

  lemma FormattedText(t: Target)
    requires IsUtf8(t.host)
    ensures IsUtf8(FormatTarget(t))
    ensures Lacks(t.host, "\r\n") ==> Lacks(FormatTarget(t), "\r\n")
  {
    hide IsUtf8;
    FormattedParts(t);
    Wrapped(HostPrefix(t), t.host, HostSuffix(t));
  }

  lemma HostLineIsWellFormed(t: Target)
    requires IsUtf8(t.host) && Lacks(t.host, "\r\n")
    ensures WellFormedLine(HostLine(t))
  {
    hide IsUtf8;
    FormattedText(t);
    Wrapped("Host: ", FormatTarget(t), "");
    assert "Host: " + FormatTarget(t) + "" == HostLine(t);
  }

  lemma HostLineParts(value: string)
    ensures IsHostLine("Host: " + value)
    ensures HostOfLine("Host: " + value) ==
      match ParseHostPort(Trim(value), 80) case Ok(t) => Ok(t) case Err(e) => Err(BadHost(e))
  {
    hide Trim, TrimStart, TrimEnd, Lower, IndexOf, ParseHostPort;
    var line := "Host: " + value;
    FirstIndexIs(line, ':', 4);
    assert line[..4] == "Host" && line[5..] == " " + value;
    HostNameTrims();
    TrimAfterBlank(value);
  }

  lemma PrintedPlainly(t: Target)
    requires ':' !in t.host
    ensures FormatTarget(t) == t.host + (":" + Decimal(t.port))
  {
  }

  lemma TrimStartShortens(s: string, c: char)
    requires SpaceWidth(s) > 0 && c !in s
    ensures |TrimStart(s)| < |s| && c !in TrimStart(s)
  {
    var r := TrimStart(s);
    assert forall i :: 0 <= i < |r| ==> r[i] == s[|s| - |r| + i];
  }

  lemma TrimOfPrinted(host: string, n: nat)
    ensures Trim(host + (":" + Decimal(n))) == TrimStart(host) + (":" + Decimal(n))
  {
    hide TrimStart, TrimEnd, Decimal;
    var port := Decimal(n);
    var tail := ":" + port;
    TrimStartBefore(host, tail);
    var s := TrimStart(host) + tail;
    assert IsDigit(port[|port| - 1]) && s[|s| - 1] == port[|port| - 1];
    VisibleEnd(s);
  }

  lemma LeadingSpaceIsLost(t: Target)
    requires t.host != "" && ':' !in t.host && SpaceWidth(t.host) > 0
    ensures ParseHostPort(Trim(FormatTarget(t)), 80) != Ok(t)
  {
    hide ParseHostPort, FormatTarget, TrimEnd, Decimal, Trim;
    PrintedPlainly(t);
    TrimOfPrinted(t.host, t.port);
    TrimStartShortens(t.host, ':');
    HostIsBeforeColon(TrimStart(t.host), t.port, 80);
  }

  /** On a line of its own, a printed target is read back exactly when its host is printable
      and does not start with white space. */
  lemma HostLineReadsBack(t: Target)
    requires t.port < 0x1_0000
    ensures IsHostLine(HostLine(t))
    ensures HostOfLine(HostLine(t)) == Ok(t) <==>
            Printable(t.host) && (t.host == "" || ':' in t.host || SpaceWidth(t.host) == 0)
  {
    var v := FormatTarget(t);
    HostLineParts(v);
    FormattedEnds(t);
    if SpaceWidth(v) == 0 {
      assert Trim(v) == v;
      RoundTripExactlyWhenPrintable(t, 80);
    } else {
      LeadingSpaceIsLost(t);
    }
  }

  lemma InnerLacks(before: string, s: string, after: string, p: string)
    requires Lacks(before + s + after, p)
    ensures Lacks(s, p)
  {
    var n := |before|;
    LacksHalves(before + s + after, p, n);
    assert (before + s + after)[n..] == s + after;
    LacksHalves(s + after, p, |s|);
    assert (s + after)[..|s|] == s;
  }

  lemma HostOfHostLineLacks(t: Target)
    requires Lacks(HostLine(t), "\r\n")
    ensures Lacks(t.host, "\r\n")
  {
    hide HostPrefix, HostSuffix, FormatTarget;
    FormattedParts(t);
    Regroup("Host: ", HostPrefix(t) + t.host, HostSuffix(t));
    Regroup("Host: ", HostPrefix(t), t.host);
    InnerLacks("Host: " + HostPrefix(t), t.host, HostSuffix(t), "\r\n");
  }

  /** A request that names its target the way the program prints it reaches that target exactly
      when the host reads back. */
  lemma RequestForTarget(lines: seq<string>, k: nat, t: Target, body: seq<byte>)
    requires forall i :: 0 <= i < |lines| ==> WellFormedLine(lines[i])
    requires 0 < k < |lines| && lines[k] == HostLine(t) && forall i :: 0 < i < k ==> !IsHostLine(lines[i])
    requires t.port < 0x1_0000
    ensures ParseHttpHost(Octets(RequestHead(lines)) + body) == Ok(t) <==> ReadsBack(t.host)
  {
    hide IsHostLine, HostOfLine, ParseHttpHost, IsUtf8;
    assert WellFormedLine(lines[k]);
    HostOfHostLineLacks(t);
    HostLineReadsBack(t);
    RequestGoesToFirstHost(lines, k, body);
  }

  // ---------------------------------------------------------------- a host is part of a line

  lemma TrimLacks(s: string, p: string)
    requires Lacks(s, p)
    ensures Lacks(Trim(s), p)
  {
    hide TrimStart, TrimEnd;
    var t := TrimStart(s);
    LacksHalves(s, p, |s| - |t|);
    assert t == s[|s| - |t|..] && TrimEnd(t) == t[..|TrimEnd(t)|];
    LacksHalves(t, p, |TrimEnd(t)|);
  }

  lemma ParsedHostIsPart(value: string, d: nat)
    requires ParseHostPort(value, d).Ok?
    ensures var h := ParseHostPort(value, d).value.host;
      || h == value
      || (LastIndexOf(value, ':').Some? && h == value[..LastIndexOf(value, ':').value])
      || (value != "" && IndexOf(value[1..], ']').Some? && h == value[1..][..IndexOf(value[1..], ']').value])
  {
  }

  lemma ParsedHostLacks(value: string, d: nat, p: string)
    requires Lacks(value, p) && ParseHostPort(value, d).Ok?
    ensures Lacks(ParseHostPort(value, d).value.host, p)
  {
    hide ParseHostPort;
    ParsedHostIsPart(value, d);
    if LastIndexOf(value, ':').Some? {
      LacksHalves(value, p, LastIndexOf(value, ':').value);
    }
    if value != "" && IndexOf(value[1..], ']').Some? {
      LacksHalves(value, p, 1);
      LacksHalves(value[1..], p, IndexOf(value[1..], ']').value);
    }
  }

  lemma HostOfLineLacks(line: string, p: string)
    requires IsHostLine(line) && Lacks(line, p) && HostOfLine(line).Ok?
    ensures Lacks(HostOfLine(line).value.host, p)
  {
    hide ParseHostPort, Trim, Lower, At;
    var value := line[IndexOf(line, ':').value + 1..];
    LacksHalves(line, p, IndexOf(line, ':').value + 1);
    TrimLacks(value, p);
    ParsedHostLacks(Trim(value), 80, p);
  }

  lemma {:induction false} FoundHostLacks(lines: seq<string>, p: string)
    requires forall i :: 0 <= i < |lines| ==> Lacks(lines[i], p)
    requires FindHost(lines).Ok?
    ensures Lacks(FindHost(lines).value.host, p)
  {
    hide IsHostLine, HostOfLine;
    if IsHostLine(lines[0]) {
      HostOfLineLacks(lines[0], p);
    } else {
      FoundHostLacks(lines[1..], p);
    }
  }

  /** No request names a host with a line break. */
  lemma HostsHaveNoLineBreak(header: seq<byte>)
    requires ParseHttpHost(header).Ok?
    ensures Lacks(ParseHttpHost(header).value.host, "\r\n")
  {
    var text := Text(header[..HeaderEnd(header).value]);
    SplitPartsLack(text, "\r\n");
    FoundHostLacks(Split(text, "\r\n")[1..], "\r\n");
  }
}
