/** `read_https_target`: the ClientHello parser re-run on a growing buffer under a cap. */
module TlsReader {
  import opened Wrappers
  import opened Bytes
  import opened Streams
  import opened Targets
  import opened Tls

  const MAX_CLIENT_HELLO: nat := 64 * 1024

  const CHUNK: nat := 1024

  datatype HelloVerdict = Host(host: seq<byte>) | Refused(reason: string) | Oversized

  /** The cap is tested before the parser runs. */
  function DecideHello(got: seq<byte>): Option<HelloVerdict> {
    if |got| > MAX_CLIENT_HELLO then Some(Oversized)
    else
      match TlsSni(got)
      case NeedMore => None
      case Found(host) => Some(Host(host))
      case Invalid(reason) => Some(Refused(reason))
  }

  function HelloResult(r: Reading<HelloVerdict>): Result<(Target, seq<byte>), ReadError> {
    match r
    case Decided(Host(host), buf) => Ok((Target(Text(host), 443), buf))
    case Decided(Refused(reason), _) => Err(Rejected(reason))
    case Decided(Oversized, _) => Err(TooLarge)
    case Closed => Err(ClosedEarly)
    case Broken => Err(Io)
  }

  /** The target of an incoming TLS connection and the bytes read to find it. */
  function HttpsTarget(src: Source): (Result<(Target, seq<byte>), ReadError>, Source) {
    var (r, s) := Accumulate(CHUNK, DecideHello, [], src);
    (HelloResult(r), s)
  }

  method ReadHttpsTarget(stream: Stream) returns (r: Result<(Target, seq<byte>), ReadError>)
    modifies stream`source
    ensures (r, stream.source) == HttpsTarget(old(stream.source))
  {
    var buf: seq<byte> := [];
    ghost var answer := Accumulate(CHUNK, DecideHello, [], stream.source);
    while true
      invariant answer == Accumulate(CHUNK, DecideHello, buf, stream.source)
      decreases |stream.source.rest|
    {
      var n := stream.Read(CHUNK);
      if n.Failed? {
        return Err(Io);
      }
      if n.Eof? {
        return Err(ClosedEarly);
      }
      buf := buf + n.bytes;
      if |buf| > MAX_CLIENT_HELLO {
        return Err(TooLarge);
      }
      var status := ParseTlsSni(buf);
      match status {
        case NeedMore =>
        case Found(host) => return Ok((Target(Text(host), 443), buf));
        case Invalid(reason) => return Err(Rejected(reason));
      }
    }
  }

  /** How many bytes the parser needs before it answers. */
  function AnswerLength(buf: seq<byte>): nat {
    if |buf| < 5 || buf[0] != 22 then 5 else 5 + U16(buf[3], buf[4])
  }

  lemma AnswersFrom(all: seq<byte>, k: nat)
    requires !TlsSni(all).NeedMore? && k <= |all|
    ensures AnswerLength(all) <= |all|
    ensures TlsSni(all[..k]).NeedMore? <==> k < AnswerLength(all)
    ensures k >= AnswerLength(all) ==> TlsSni(all[..k]) == TlsSni(all)
  {
    if k >= AnswerLength(all) && all[0] == 22 {
      assert all[..k][5..AnswerLength(all)] == all[5..AnswerLength(all)];
    }
  }

  /** `AccumulateKeepsBytes` for the run that starts from an empty buffer. */
  lemma HelloRun(src: Source) returns (p: nat)
    ensures var (r, s) := Accumulate(CHUNK, DecideHello, [], src);
      && (r.Decided? ==>
            && r.buf + s.rest == src.rest && r.buf == src.rest[..|r.buf|]
            && DecideHello(r.buf) == Some(r.verdict)
            && p < |r.buf| <= p + CHUNK && (p == 0 || DecideHello(src.rest[..p]).None?))
      && (r.Closed? ==> src.rest == [] || DecideHello(src.rest).None?)
      && (src.FaultFree() ==> !r.Broken? && s.FaultFree())
  {
    p := AccumulateKeepsBytes(CHUNK, DecideHello, [], src);
    assert [] + src.rest == src.rest;
  }

  /** Up to the cap, every chunking gives what the parser says of the whole stream. */
  lemma ShortStreamsGetTheParsersAnswer(src: Source)
    requires src.FaultFree() && |src.rest| <= 65536
    ensures var r := HttpsTarget(src).0;
      match TlsSni(src.rest)
      case Found(host) => r.Ok? && r.value.0 == Target(Text(host), 443)
      case Invalid(reason) => r == Err(Rejected(reason))
      case NeedMore => r == Err(ClosedEarly)
  {
    var p := HelloRun(src);
    var (r, s) := Accumulate(CHUNK, DecideHello, [], src);
    if r.Decided? {
      AnswerIsStable(r.buf, s.rest);
    }
  }

  /** Any accepted buffer is a prefix of the stream within the cap, and its host is the one
      the parser finds in the whole stream; so any two successful runs agree on it. */
  lemma AcceptedHelloIsOfTheStream(src: Source)
    ensures var (r, s) := HttpsTarget(src);
      && (r.Ok? ==>
            && r.value.1 + s.rest == src.rest && |r.value.1| <= MAX_CLIENT_HELLO
            && TlsSni(src.rest).Found? && r.value.0 == Target(Text(TlsSni(src.rest).host), 443))
      && Suffix(s.rest, src.rest)
      && (src.FaultFree() ==> s.FaultFree())
  {
    var p := HelloRun(src);
    AccumulateLeavesSuffix(CHUNK, DecideHello, [], src);
    var (r, s) := Accumulate(CHUNK, DecideHello, [], src);
    if r.Decided? && r.verdict.Host? {
      AnswerIsStable(r.buf, s.rest);
    }
  }

  lemma UndecidedBefore(all: seq<byte>, k: nat)
    requires !TlsSni(all).NeedMore? && k < AnswerLength(all) && k <= MAX_CLIENT_HELLO
    ensures DecideHello(all[..k]).None?
  {
    AnswersFrom(all, AnswerLength(all));
    AnswersFrom(all, k);
  }

  lemma TrickledHello(all: seq<byte>, m: nat, last: seq<Arrival>)
    requires !TlsSni(all).NeedMore? && m < AnswerLength(all) && m <= MAX_CLIENT_HELLO
    ensures m <= |all|
    ensures Accumulate(CHUNK, DecideHello, [], Source(all, Trickle(m, last)))
         == Accumulate(CHUNK, DecideHello, all[..m], Source(all[m..], last))
  {
    AnswersFrom(all, 0);
    forall k | 0 < k <= m
      ensures DecideHello(all[..k]).None?
    {
      UndecidedBefore(all, k);
    }
    assert all[..0] == [] && all[0..] == all;
    AccumulateTrickles(CHUNK, DecideHello, all, 0, m, last);
  }

  lemma EarlyAnswersNeverHitTheCap(src: Source)
    requires src.FaultFree() && !TlsSni(src.rest).NeedMore?
    requires AnswerLength(src.rest) + CHUNK <= MAX_CLIENT_HELLO + 1
    ensures HttpsTarget(src).0 != Err(TooLarge)
  {
    var p := HelloRun(src);
    var (r, s) := Accumulate(CHUNK, DecideHello, [], src);
    if r.Decided? {
      AnswersFrom(src.rest, p);
    }
  }

  /** A name whose ClientHello ends by byte 64513 is found under every chunking, however long the
      stream is. */
  lemma EarlyHelloGetsItsTarget(src: Source)
    requires src.FaultFree() && TlsSni(src.rest).Found? && AnswerLength(src.rest) <= 64513
    ensures HttpsTarget(src).0.Ok?
    ensures HttpsTarget(src).0.value.0 == Target(Text(TlsSni(src.rest).host), 443)
  {
    EarlyAnswersNeverHitTheCap(src);
    AcceptedHelloIsOfTheStream(src);
    var p := HelloRun(src);
    var (r, s) := Accumulate(CHUNK, DecideHello, [], src);
    if r.Decided? && !r.verdict.Oversized? {
      AnswerIsStable(r.buf, s.rest);
    }
  }

  lemma LateAnswersAlwaysHitTheCap(src: Source)
    requires src.FaultFree() && !TlsSni(src.rest).NeedMore?
    requires AnswerLength(src.rest) > MAX_CLIENT_HELLO
    ensures HttpsTarget(src).0 == Err(TooLarge)
  {
    var p := HelloRun(src);
    AnswersFrom(src.rest, 0);
    var (r, s) := Accumulate(CHUNK, DecideHello, [], src);
    if r.Decided? {
      assert r.buf == src.rest[..|r.buf|];
      AnswersFrom(src.rest, |r.buf|);
    }
  }

  lemma AnswersNearTheCapCanHitIt(all: seq<byte>)
    requires !TlsSni(all).NeedMore? && |all| > MAX_CLIENT_HELLO
    requires AnswerLength(all) + CHUNK > MAX_CLIENT_HELLO + 1
    ensures exists plan: seq<Arrival> ::
      Source(all, plan).FaultFree() && HttpsTarget(Source(all, plan)).0 == Err(TooLarge)
  {
    hide TlsSni, Accumulate, Trickle;
    AnswersFrom(all, 0);
    var m := if AnswerLength(all) - 1 < MAX_CLIENT_HELLO then AnswerLength(all) - 1 else MAX_CLIENT_HELLO;
    var plan := Trickle(m, []);
    TrickleIsFaultFree(m, [], all);
    TrickledHello(all, m, []);
    var n := if CHUNK < |all| - m then CHUNK else |all| - m;
    assert all[m..][..n] == all[m..m + n];
    AccumulateDecides(CHUNK, DecideHello, all, m, n, []);
    assert Source(all, plan).FaultFree() && HttpsTarget(Source(all, plan)).0 == Err(TooLarge);
  }

  lemma AnswersWithinTheCapCanBeRead(all: seq<byte>)
    requires !TlsSni(all).NeedMore? && AnswerLength(all) <= MAX_CLIENT_HELLO
    ensures exists plan: seq<Arrival> ::
      Source(all, plan).FaultFree() && HttpsTarget(Source(all, plan)).0 != Err(TooLarge)
  {
    hide TlsSni, Accumulate, Trickle;
    AnswersFrom(all, 0);
    var m := AnswerLength(all) - 1;
    AnswersFrom(all, m + 1);
    var plan := Trickle(m, [Arrive(1)]);
    TrickleIsFaultFree(m, [Arrive(1)], all);
    TrickledHello(all, m, [Arrive(1)]);
    assert all[m..][..1] == all[m..m + 1];
    AccumulateDecides(CHUNK, DecideHello, all, m, 1, [Arrive(1)]);
    assert Source(all, plan).FaultFree() && HttpsTarget(Source(all, plan)).0 != Err(TooLarge);
  }

  /** Where the 1024-byte chunk meets the cap: a failure-free stream longer than the cap whose
      answer needs K bytes is never refused as oversized, under any chunking, iff K <= 64513;
      some chunking avoids the refusal iff K <= 65536. */
  lemma HelloBounds(all: seq<byte>)
    requires !TlsSni(all).NeedMore? && |all| > 65536
    ensures (forall plan: seq<Arrival> | Source(all, plan).FaultFree() ::
               HttpsTarget(Source(all, plan)).0 != Err(TooLarge))
       <==> AnswerLength(all) <= 64513
    ensures (exists plan: seq<Arrival> ::
               Source(all, plan).FaultFree() && HttpsTarget(Source(all, plan)).0 != Err(TooLarge))
       <==> AnswerLength(all) <= 65536
  {
    var need := AnswerLength(all);
    forall plan: seq<Arrival> | Source(all, plan).FaultFree()
      ensures need <= 64513 ==> HttpsTarget(Source(all, plan)).0 != Err(TooLarge)
      ensures need > MAX_CLIENT_HELLO ==> HttpsTarget(Source(all, plan)).0 == Err(TooLarge)
    {
      if need <= 64513 {
        EarlyAnswersNeverHitTheCap(Source(all, plan));
      } else if need > MAX_CLIENT_HELLO {
        LateAnswersAlwaysHitTheCap(Source(all, plan));
      }
    }
    if need <= MAX_CLIENT_HELLO {
      AnswersWithinTheCapCanBeRead(all);
    }
    if need > 64513 {
      AnswersNearTheCapCanHitIt(all);
    }
  }
}
