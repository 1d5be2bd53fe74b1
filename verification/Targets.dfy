/** Targets and hostnames: src/target.rs. */
module Targets {
  import opened Wrappers
  import opened Search
  import opened Strings

  datatype Target = Target(host: string, port: nat)

  datatype HostError = EmptyHost | UnclosedBracket | BadSuffix | InvalidPort

  function WithPort(host: string, port: string): Result<Target, HostError> {
    match ParseU16(port)
    case Some(n) => Ok(Target(host, n))
    case None => Err(InvalidPort)
  }

  function ParseHostPort(value: string, defaultPort: nat): Result<Target, HostError> {
    if value == "" then Err(EmptyHost)
    else if value[0] == '[' then
      match IndexOf(value[1..], ']')
      case None => Err(UnclosedBracket)
      case Some(i) =>
        var host, rest := value[1..][..i], value[1..][i + 1..];
        if rest == "" then Ok(Target(host, defaultPort))
        else if rest[0] == ':' then WithPort(host, rest[1..])
        else Err(BadSuffix)
    else
      match LastIndexOf(value, ':')
      case Some(i) =>
        if ':' !in value[..i] && value[i + 1..] != "" then WithPort(value[..i], value[i + 1..])
        else Ok(Target(value, defaultPort))
      case None => Ok(Target(value, defaultPort))
  }

  predicate OpensBracket(host: string) {
    host != "" && host[0] == '['
  }

  function FormatTarget(t: Target): string {
    if ':' in t.host && !OpensBracket(t.host) then "[" + t.host + "]:" + Decimal(t.port)
    else t.host + ":" + Decimal(t.port)
  }

  /** Brackets go around a host with a colon, unless it opens with one. */
  lemma PrintedTargets(host: string, port: nat)
    ensures host == "" || host[0] == '[' || ':' !in host ==>
      FormatTarget(Target(host, port)) == host + ":" + Decimal(port)
    ensures host != "" && host[0] != '[' && ':' in host ==>
      FormatTarget(Target(host, port)) == "[" + host + "]:" + Decimal(port)
  {
  }

  /** The hosts that survive being printed. */
  predicate Printable(host: string) {
    !OpensBracket(host) && !(':' in host && ']' in host)
  }

  lemma FirstIndexIs(s: string, c: char, i: nat)
    requires i < |s| && s[i] == c && forall j :: 0 <= j < i ==> s[j] != c
    ensures IndexOf(s, c) == Some(i)
  {
  }

  lemma LastIndexIs(s: string, c: char, i: nat)
    requires i < |s| && s[i] == c && forall j :: i < j < |s| ==> s[j] != c
    ensures LastIndexOf(s, c) == Some(i)
  {
  }

  lemma AppendedIndex(s: string, tail: string, c: char)
    requires tail != "" && tail[0] == c
    ensures IndexOf(s + tail, c) == if IndexOf(s, c).Some? then IndexOf(s, c) else Some(|s|)
  {
    var all := s + tail;
    assert forall j :: 0 <= j < |s| ==> all[j] == s[j];
    FirstIndexIs(all, c, if IndexOf(s, c).Some? then IndexOf(s, c).value else |s|);
  }

  lemma PartsOfAppend(s: string, tail: string)
    requires tail != ""
    ensures (s + tail)[..|s|] == s && (s + tail)[|s| + 1..] == tail[1..]
  {
  }

  /** The host as it is found again in front of a closing bracket. */
  lemma CutAtBracket(host: string, tail: string)
    requires tail != "" && tail[0] == ']'
    ensures var inner := host + tail;
      match IndexOf(host, ']')
      case None => IndexOf(inner, ']') == Some(|host|) && inner[..|host|] == host && inner[|host| + 1..] == tail[1..]
      case Some(i) => IndexOf(inner, ']') == Some(i) && inner[..i] == host[..i]
  {
    hide IndexOf;
    AppendedIndex(host, tail, ']');
    match IndexOf(host, ']')
    case None => PartsOfAppend(host, tail);
    case Some(i) => assert (host + tail)[..i] == host[..i];
  }

  lemma BracketedRoundTrip(t: Target, d: nat)
    requires ':' in t.host && !OpensBracket(t.host) && t.port < 0x1_0000
    ensures ParseHostPort(FormatTarget(t), d) == Ok(t) <==> ']' !in t.host
  {
    hide IndexOf, Decimal, ParseU16;
    var port := Decimal(t.port);
    var tail := "]:" + port;
    assert FormatTarget(t)[1..] == t.host + tail;
    assert tail[1..] == ":" + port && (":" + port)[1..] == port;
    CutAtBracket(t.host, tail);
    if ']' !in t.host {
      ParseU16OfDecimal(t.port);
    }
  }

  lemma OpenBracketIsLost(t: Target, d: nat)
    requires OpensBracket(t.host)
    ensures ParseHostPort(FormatTarget(t), d) != Ok(t)
  {
    var rest := FormatTarget(t)[1..];
    var port := Decimal(t.port);
    assert rest == t.host[1..] + ":" + port;
    assert forall i :: |t.host| <= i < |rest| ==> rest[i] == port[i - |t.host|] && IsDigit(port[i - |t.host|]);
  }

  lemma PlainRoundTrip(t: Target, d: nat)
    requires ':' !in t.host && !OpensBracket(t.host) && t.port < 0x1_0000
    ensures ParseHostPort(FormatTarget(t), d) == Ok(t)
  {
    var port := Decimal(t.port);
    var value := FormatTarget(t);
    assert value[|t.host| + 1..] == port && value[..|t.host|] == t.host;
    assert forall i :: |t.host| < i < |value| ==> value[i] == port[i - |t.host| - 1] && IsDigit(port[i - |t.host| - 1]);
    LastIndexIs(value, ':', |t.host|);
    ParseU16OfDecimal(t.port);
  }

  lemma BracketIsBefore(value: string, n: nat)
    requires forall i :: n <= i < |value| ==> value[i] != ']'
    requires value != ""
    ensures IndexOf(value[1..], ']').Some? ==> IndexOf(value[1..], ']').value + 1 < n
  {
    var i := IndexOf(value[1..], ']');
    assert i.Some? ==> value[1..][i.value] == value[i.value + 1];
  }

  lemma PortTail(h: string, port: nat)
    ensures var value := h + (":" + Decimal(port));
      value[|h|] == ':' && forall i :: |h| < i < |value| ==> IsDigit(value[i])
  {
    hide Decimal;
    var digits := Decimal(port);
    var value := h + (":" + digits);
    assert forall i :: |h| < i < |value| ==> value[i] == digits[i - |h| - 1];
  }

  /** Before a port, no host longer than what precedes its colon is read. */
  lemma HostIsBeforeColon(h: string, port: nat, d: nat)
    requires ':' !in h
    ensures var r := ParseHostPort(h + (":" + Decimal(port)), d); r.Ok? ==> |r.value.host| <= |h|
  {
    hide IndexOf, LastIndexOf, Decimal, ParseU16;
    var value := h + (":" + Decimal(port));
    PortTail(h, port);
    LastIndexIs(value, ':', |h|);
    BracketIsBefore(value, |h|);
  }

  // What is read from a value, case by case.

  lemma EmptyValue(d: nat)
    ensures ParseHostPort("", d) == Err(EmptyHost)
  {
  }

  /** A plain host gets the default port. */
  lemma HostWithoutPort(value: string, d: nat)
    requires value != "" && ':' !in value && value[0] != '['
    ensures ParseHostPort(value, d) == Ok(Target(value, d))
  {
  }

  /** A host and a port around the only colon. */
  lemma HostWithPort(host: string, port: string, d: nat)
    requires ':' !in host && ':' !in port && port != "" && !OpensBracket(host)
    ensures ParseHostPort(host + ":" + port, d) ==
      match ParseU16(port) case Some(n) => Ok(Target(host, n)) case None => Err(InvalidPort)
  {
    hide ParseU16;
    var value := host + ":" + port;
    assert value[..|host|] == host && value[|host| + 1..] == port;
    LastIndexIs(value, ':', |host|);
  }

  /** A value that ends in its only colon, or has several, is a host as a whole. */
  lemma HostWithColons(value: string, i: nat, d: nat)
    requires value != "" && value[0] != '[' && i < |value| && value[i] == ':'
    requires i == |value| - 1 || ':' in value[i + 1..]
    ensures ParseHostPort(value, d) == Ok(Target(value, d))
  {
    if ':' in value[i + 1..] {
      var k :| 0 <= k < |value[i + 1..]| && value[i + 1..][k] == ':';
      assert value[i + 1 + k] == ':';
      var last := LastIndexOf(value, ':').value;
      assert value[..last][i] == ':';
    }
  }

  lemma UnclosedBrackets(rest: string, d: nat)
    requires ']' !in rest
    ensures ParseHostPort("[" + rest, d) == Err(UnclosedBracket)
  {
    assert ("[" + rest)[1..] == rest;
  }

  /** A printed target reads back as itself exactly when its host is printable. */
  lemma RoundTripExactlyWhenPrintable(t: Target, d: nat)
    requires t.port < 0x1_0000
    ensures ParseHostPort(FormatTarget(t), d) == Ok(t) <==> Printable(t.host)
  {
    if OpensBracket(t.host) {
      OpenBracketIsLost(t, d);
    } else if ':' in t.host {
      BracketedRoundTrip(t, d);
    } else {
      PlainRoundTrip(t, d);
    }
  }

  lemma ParseBracketed(host: string, rest: string, d: nat)
    requires ']' !in host
    ensures ParseHostPort("[" + host + ("]" + rest), d) ==
      if rest == "" then Ok(Target(host, d)) else if rest[0] != ':' then Err(BadSuffix)
      else match ParseU16(rest[1..]) case Some(n) => Ok(Target(host, n)) case None => Err(InvalidPort)
  {
    hide IndexOf, ParseU16;
    var value := "[" + host + ("]" + rest);
    assert value[1..] == host + ("]" + rest);
    CutAtBracket(host, "]" + rest);
    assert ("]" + rest)[1..] == rest;
  }

  lemma PrintedInBrackets(host: string, n: nat)
    ensures FormatTarget(Target("[" + host + "]", n)) == "[" + host + ("]" + (":" + Decimal(n)))
  {
  }

  /** A bracketed host loses its brackets. */
  lemma BracketsAreLost(d: nat)
    ensures ParseHostPort(FormatTarget(Target("[::1]", 443)), d) == Ok(Target("::1", 443))
  {
    hide ParseHostPort, Decimal, ParseU16, FormatTarget;
    var port := Decimal(443);
    ParseU16OfDecimal(443);
    assert "[" + "::1" + "]" == "[::1]";
    PrintedInBrackets("::1", 443);
    ParseBracketed("::1", ":" + port, d);
    assert (":" + port)[1..] == port;
  }

  /** A bracket inside an address closes it early. */
  lemma InnerBracketCloses(d: nat)
    ensures ParseHostPort(FormatTarget(Target("::]1", 443)), d) == Err(BadSuffix)
  {
    hide ParseHostPort, Decimal, ParseU16;
    var port := Decimal(443);
    ParseBracketed("::", "1]:" + port, d);
    assert FormatTarget(Target("::]1", 443)) == "[" + "::" + ("]" + ("1]:" + port));
  }

  // ---------------------------------------------------------------- hostnames

  predicate IsAlphanumeric(c: char) {
    'a' <= c <= 'z' || 'A' <= c <= 'Z' || IsDigit(c)
  }

  /** By code: the digits from 48, the upper-case letters from 65, the lower-case ones from 97. */
  lemma AlphanumericExactly(c: char)
    ensures IsAlphanumeric(c) <==> 48 <= c as int < 58 || 65 <= c as int < 91 || 97 <= c as int < 123
  {
  }

  predicate IsValidDnsLabel(part: string) {
    && 0 < |part| <= 63
    && IsAlphanumeric(part[0]) && IsAlphanumeric(part[|part| - 1])
    && forall i :: 0 <= i < |part| ==> IsAlphanumeric(part[i]) || part[i] == '-'
  }

  predicate IsValidHostname(host: string) {
    && host != "" && |host| <= 253 && host[0] != '.' && host[|host| - 1] != '.'
    && forall i :: 0 <= i < |Split(host, ".")| ==> IsValidDnsLabel(Split(host, ".")[i])
  }

  ghost predicate DotWithin64(s: string, k: int) {
    exists d :: 0 <= k <= d < k + 64 && d < |s| && s[d] == '.'
  }

  /** A position-by-position description of dotted labels that does not mention splitting. */
  ghost predicate DottedLabels(s: string) {
    && s != "" && IsAlphanumeric(s[0]) && IsAlphanumeric(s[|s| - 1])
    && (forall i :: 0 <= i < |s| ==> IsAlphanumeric(s[i]) || s[i] == '-' || s[i] == '.')
    && (forall i :: 0 < i < |s| - 1 && s[i] == '.' ==> IsAlphanumeric(s[i - 1]) && IsAlphanumeric(s[i + 1]))
    && (forall k :: 0 <= k <= |s| - 64 ==> DotWithin64(s, k))
  }

  lemma OneLabel(s: string)
    requires '.' !in s
    ensures DottedLabels(s) <==> IsValidDnsLabel(s)
  {
    if |s| >= 64 {
      assert !DotWithin64(s, 0);
    }
  }

  lemma WindowsOfSuffix(s: string, i: nat, tail: string)
    requires i < |s| && s[i] == '.' && tail == s[i + 1..] && i <= 63
    requires forall k :: 0 <= k <= |tail| - 64 ==> DotWithin64(tail, k)
    ensures forall k :: 0 <= k <= |s| - 64 ==> DotWithin64(s, k)
  {
    forall k | 0 <= k <= |s| - 64
      ensures DotWithin64(s, k)
    {
      if k > i {
        assert DotWithin64(tail, k - i - 1);
        var d :| 0 <= k - i - 1 <= d < k - i - 1 + 64 && d < |tail| && tail[d] == '.';
        assert s[i + 1 + d] == '.';
      }
    }
  }

  lemma WindowsToSuffix(s: string, i: nat, tail: string)
    requires i < |s| && s[i] == '.' && tail == s[i + 1..] && '.' !in s[..i]
    requires forall k :: 0 <= k <= |s| - 64 ==> DotWithin64(s, k)
    ensures i <= 63
    ensures forall k :: 0 <= k <= |tail| - 64 ==> DotWithin64(tail, k)
  {
    assert forall d :: 0 <= d < i ==> s[..i][d] == s[d];
    assert i > 63 ==> !DotWithin64(s, 0);
    forall k | 0 <= k <= |tail| - 64
      ensures DotWithin64(tail, k)
    {
      assert DotWithin64(s, i + 1 + k);
      var d :| 0 <= i + 1 + k <= d < i + 1 + k + 64 && d < |s| && s[d] == '.';
      assert tail[d - i - 1] == '.';
    }
  }

  lemma MoreLabels(s: string, i: nat)
    requires i < |s| && s[i] == '.' && '.' !in s[..i]
    ensures DottedLabels(s) <==> IsValidDnsLabel(s[..i]) && DottedLabels(s[i + 1..])
  {
    var head, tail := s[..i], s[i + 1..];
    if DottedLabels(s) {
      WindowsToSuffix(s, i, tail);
      assert 0 < i < |s| - 1;
      assert forall k :: 0 <= k < |tail| ==> tail[k] == s[i + 1 + k];
    }
    if IsValidDnsLabel(head) && DottedLabels(tail) {
      WindowsOfSuffix(s, i, tail);
      assert forall k :: i < k < |s| ==> s[k] == tail[k - i - 1];
      assert forall k :: 0 <= k < i ==> s[k] == head[k];
    }
  }

  ghost predicate AllValid(parts: seq<string>) {
    forall i :: 0 <= i < |parts| ==> IsValidDnsLabel(parts[i])
  }

  lemma AllValidOfCons(part: string, more: seq<string>)
    ensures AllValid([part] + more) <==> IsValidDnsLabel(part) && AllValid(more)
  {
    var parts := [part] + more;
    assert parts[0] == part;
    assert forall k :: 0 <= k < |more| ==> parts[k + 1] == more[k];
    assert AllValid(parts) ==> AllValid(more) by {
      assert forall k :: 0 <= k < |more| ==> more[k] == parts[k + 1];
    }
  }

  lemma {:induction false} LabelsAreDotted(s: string)
    ensures AllValid(Split(s, ".")) <==> DottedLabels(s)
    decreases |s|
  {
    LacksChar(s, '.');
    match Find(s, ".") {
      case None =>
        AllValidOfCons(s, []);
        assert [s] + [] == [s];
        OneLabel(s);
      case Some(i) =>
        AtChar(s, '.', i);
        LacksBeforeFirst(s, ".", i);
        LacksChar(s[..i], '.');
        AllValidOfCons(s[..i], Split(s[i + 1..], "."));
        LabelsAreDotted(s[i + 1..]);
        MoreLabels(s, i);
    }
  }

  /** What is accepted as a hostname, character by character. */
  lemma HostnamesAreDottedLabels(host: string)
    ensures IsValidHostname(host) <==> |host| <= 253 && DottedLabels(host)
  {
    LabelsAreDotted(host);
  }
}
