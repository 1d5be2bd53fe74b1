/** ClientHellos spread over several TLS records, which section 5.1 of RFC 8446 permits and
    src/tls.rs does not read. */
module Fragments {
  import opened Wrappers
  import opened Bytes
  import opened Streams
  import opened Tls
  import opened TlsReader

  /** One record for each fragment. */
  function Records(version: seq<byte>, fragments: seq<seq<byte>>): seq<byte> {
    if fragments == [] then [] else PutRecord(version, fragments[0], Records(version, fragments[1..]))
  }

  function Flat(fragments: seq<seq<byte>>): seq<byte> {
    if fragments == [] then [] else fragments[0] + Flat(fragments[1..])
  }

  /** A cut of the message into record payloads; none is empty. */
  predicate Fragmented(message: seq<byte>, fragments: seq<seq<byte>>) {
    && fragments != [] && Flat(fragments) == message
    && forall i :: 0 <= i < |fragments| ==> 0 < |fragments[i]| < 0x1_0000
  }

  lemma RecordThenMore(version: seq<byte>, record: seq<byte>, rest: seq<byte>, more: seq<byte>)
    ensures PutRecord(version, record, rest) + more == PutRecord(version, record, rest + more)
  {
    var len := PutU16(|record|);
    assert len + record + rest + more == len + record + (rest + more);
    assert [22] + version + (len + record + rest) + more == [22] + version + (len + record + rest + more);
  }

  lemma FirstFragment(message: seq<byte>, fragments: seq<seq<byte>>)
    requires Fragmented(message, fragments)
    ensures fragments[0] <= message
    ensures |fragments[0]| < |message| <==> |fragments| > 1
  {
    assert message == fragments[0] + Flat(fragments[1..]);
    if |fragments| > 1 {
      assert fragments[1..][0] == fragments[1];
      assert Flat(fragments[1..]) == fragments[1] + Flat(fragments[1..][1..]);
    } else {
      assert fragments[1..] == [] && Flat(fragments[1..]) == [];
    }
  }

  lemma StartOfHandshake(body: seq<byte>, n: nat)
    requires |body| < 0x100_0000 && n < 4 + |body|
    ensures Handshake(PutHandshake(body, [])[..n]) == if n < 4 then Invalid("not a TLS ClientHello") else NeedMore
  {
    hide ClientHelloBody;
    CutHandshake([1], PutU24(|body|), body, []);
  }

  lemma FirstRecordDecides(version: seq<byte>, fragments: seq<seq<byte>>, more: seq<byte>)
    requires |version| == 2 && fragments != [] && |fragments[0]| < 0x1_0000
    ensures TlsSni(Records(version, fragments) + more) == Handshake(fragments[0])
  {
    hide TlsSni, Handshake, PutRecord;
    RecordThenMore(version, fragments[0], Records(version, fragments[1..]), more);
    RecordReads(version, fragments[0], Records(version, fragments[1..]) + more);
  }

  /** A ClientHello cut into more than one record is never found, whatever follows: it is
      refused when the first record holds less than a handshake header, and waited for without
      end otherwise. */
  lemma FragmentedHelloIsNeverFound(h: ClientHello, version: seq<byte>, fragments: seq<seq<byte>>, more: seq<byte>)
    requires h.Fits() && |version| == 2 && Fragmented(h.Message(), fragments) && |fragments| > 1
    ensures TlsSni(Records(version, fragments) + more) ==
      if |fragments[0]| < 4 then Invalid("not a TLS ClientHello") else NeedMore
  {
    hide TlsSni, Handshake, Records;
    MessageReads(h);
    FirstFragment(h.Message(), fragments);
    FirstRecordDecides(version, fragments, more);
    StartOfHandshake(h.Body(), |fragments[0]|);
    assert fragments[0] == h.Message()[..|fragments[0]|];
  }

  /** A ClientHello that names a host is found exactly when it was sent in one record. */
  lemma FoundExactlyInOneRecord(h: ClientHello, i: nat, names: seq<Name>, j: nat,
                                version: seq<byte>, fragments: seq<seq<byte>>, more: seq<byte>)
    requires h.Fits() && h.NamesFirst(i, names, j)
    requires |version| == 2 && Fragmented(h.Message(), fragments)
    ensures TlsSni(Records(version, fragments) + more) == Found(names[j].data) <==> |fragments| == 1
  {
    hide TlsSni, Handshake, Records, ScanExtensions;
    if |fragments| > 1 {
      FragmentedHelloIsNeverFound(h, version, fragments, more);
    } else {
      FirstFragment(h.Message(), fragments);
      FirstRecordDecides(version, fragments, more);
      assert fragments[0] == h.Message();
      MessageReads(h);
      ScansToName(h, i, names, j);
    }
  }

  /** So no chunking of a connection that starts with one gets a target. */
  lemma FragmentedHelloGetsNoTarget(h: ClientHello, version: seq<byte>, fragments: seq<seq<byte>>,
                                    more: seq<byte>, src: Source)
    requires h.Fits() && |version| == 2 && Fragmented(h.Message(), fragments) && |fragments| > 1
    requires src.rest == Records(version, fragments) + more
    ensures HttpsTarget(src).0.Err?
  {
    hide TlsSni, HttpsTarget;
    FragmentedHelloIsNeverFound(h, version, fragments, more);
    AcceptedHelloIsOfTheStream(src);
  }

  // ---------------------------------------------------------------- an example

  function ExampleNames(): seq<Name> {
    [Name(0, [97])]
  }

  /** The smallest ClientHello that names the host "a". */
  function ExampleHello(): ClientHello {
    ClientHello(seq(34, i => 0), [], [], [], [Extension(0, ServerNames(ExampleNames()))])
  }

  lemma ExampleNamesFirst()
    ensures ExampleHello().Fits() && ExampleHello().NamesFirst(0, ExampleNames(), 0)
    ensures 4 < |ExampleHello().Message()| < 100
  {
    var list := PutNames(ExampleNames());
    assert ExampleNames()[1..] == [];
    assert |list| == 4;
    var e := ExampleHello().extensions;
    assert e[1..] == [];
    assert |PutExtensions(e)| == 10;
    AsciiIsUtf8([97]);
  }

  lemma OneOrTwoFragments(m: seq<byte>, cut: nat)
    requires 0 < cut < |m| < 0x1_0000
    ensures Fragmented(m, [m]) && Fragmented(m, [m[..cut], m[cut..]])
  {
    var tail: seq<seq<byte>> := [m[cut..]];
    assert Flat([m]) == m by {
      assert [m][1..] == [] && m + [] == m;
    }
    assert Flat(tail) == m[cut..] by {
      assert tail[1..] == [] && m[cut..] + [] == m[cut..];
    }
    assert Flat([m[..cut], m[cut..]]) == m by {
      assert [m[..cut], m[cut..]][1..] == tail;
      assert m[..cut] + m[cut..] == m;
    }
  }

  /** The same message is found in one record, refused when cut after three bytes, and waited
      for without end when cut after four. */
  lemma CutExampleIsNotFound(more: seq<byte>)
    ensures var m := ExampleHello().Message();
      && |m| > 4
      && TlsSni(Records([3, 1], [m]) + more) == Found([97])
      && TlsSni(Records([3, 1], [m[..3], m[3..]]) + more) == Invalid("not a TLS ClientHello")
      && TlsSni(Records([3, 1], [m[..4], m[4..]]) + more) == NeedMore
  {
    hide TlsSni, Records;
    var m := ExampleHello().Message();
    ExampleNamesFirst();
    OneOrTwoFragments(m, 3);
    OneOrTwoFragments(m, 4);
    FoundExactlyInOneRecord(ExampleHello(), 0, ExampleNames(), 0, [3, 1], [m], more);
    FragmentedHelloIsNeverFound(ExampleHello(), [3, 1], [m[..3], m[3..]], more);
    FragmentedHelloIsNeverFound(ExampleHello(), [3, 1], [m[..4], m[4..]], more);
  }

  lemma HelloBody(random: seq<byte>)
    ensures var list: seq<byte> := [0, 0, 1, 97];
      && PutNames(ExampleNames()) == list && ServerNames(ExampleNames()) == [0, 4] + list
      && PutExtensions([Extension(0, [0, 4] + list)]) == [0, 0, 0, 6, 0, 4] + list
      && PutBody(random, [], [], [], [0, 0, 0, 6, 0, 4] + list, [])
         == random + [0, 0, 0, 0, 0, 10, 0, 0, 0, 6, 0, 4, 0, 0, 1, 97]
  {
    PutU16Decodes(0, 0);
    PutU16Decodes(0, 1);
    PutU16Decodes(0, 4);
    PutU16Decodes(0, 6);
    PutU16Decodes(0, 10);
    assert ExampleNames()[1..] == [] && [Extension(0, [0, 4, 0, 0, 1, 97])][1..] == [];
  }

  lemma HelloRecord(body: seq<byte>)
    requires |body| == 50
    ensures |PutHandshake(body, [])| == 54
    ensures PutRecord([3, 1], PutHandshake(body, []), []) == [22, 3, 1, 0, 54] + ([1, 0, 0, 50] + body)
  {
    PutU16Decodes(0, 54);
    PutU24Decodes(0, 0, 50);
    assert PutHandshake(body, []) == [1, 0, 0, 50] + body;
  }

  /** One record with a ClientHello for the host "a", byte by byte; `random` stands for the
      version and the random. */
  lemma HelloOnTheWire(random: seq<byte>, more: seq<byte>)
    requires |random| == 34
    ensures var body := random + [0, 0, 0, 0, 0, 10, 0, 0, 0, 6, 0, 4, 0, 0, 1, 97];
      TlsSni([22, 3, 1, 0, 54] + ([1, 0, 0, 50] + body) + more) == Found([97])
  {
    hide TlsSni, PutBody, PutRecord, PutHandshake, PutNames, PutExtensions, ServerNames;
    var hello := ClientHello(random, [], [], [], [Extension(0, ServerNames(ExampleNames()))]);
    HelloBody(random);
    HelloRecord(hello.Body());
    AsciiIsUtf8([97]);
    SerializedHelloIsFound(hello, 0, ExampleNames(), 0, more);
  }
}
