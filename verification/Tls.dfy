/** The ClientHello parser of src/tls.rs: functions that give its answer, methods that walk
    the buffer with cursors as the code does, and the grammar it accepts. */
module Tls {
  import opened Bytes
  import opened Search

  datatype Status = NeedMore | Found(host: seq<byte>) | Invalid(reason: string)

  // ---------------------------------------------------------------- the parser's answer

  function HostName(b: seq<byte>): (r: Status)
    ensures !r.NeedMore?
  {
    if ValidUtf8(b) && b != [] then Found(b) else Invalid("invalid SNI hostname")
  }

  function ScanNames(names: seq<byte>): (r: Status)
    ensures !r.NeedMore?
  {
    if names == [] then Invalid("DNS SNI name not found")
    else if |names| < 3 then Invalid("truncated SNI name")
    else
      var n := U16(names[1], names[2]);
      if |names| < 3 + n then Invalid("truncated SNI host")
      else if names[0] == 0 then HostName(names[3..3 + n])
      else ScanNames(names[3 + n..])
  }

  function SniExtension(data: seq<byte>): (r: Status)
    ensures !r.NeedMore?
  {
    if |data| < 2 then Invalid("truncated SNI extension")
    else
      var n := U16(data[0], data[1]);
      if |data| < 2 + n then Invalid("truncated SNI list")
      else ScanNames(data[2..2 + n])
  }

  function ScanExtensions(exts: seq<byte>): (r: Status)
    ensures !r.NeedMore?
  {
    if exts == [] then Invalid("TLS SNI extension not found")
    else if |exts| < 4 then Invalid("truncated extension header")
    else
      var n := U16(exts[2], exts[3]);
      if |exts| < 4 + n then Invalid("truncated extension")
      else if U16(exts[0], exts[1]) == 0 then SniExtension(exts[4..4 + n])
      else ScanExtensions(exts[4 + n..])
  }

  function ExtensionBlock(b: seq<byte>): (r: Status)
    ensures !r.NeedMore?
  {
    if |b| < 2 then Invalid("missing extensions length")
    else
      var n := U16(b[0], b[1]);
      if |b| < 2 + n then Invalid("truncated extensions")
      else ScanExtensions(b[2..2 + n])
  }

  function CompressionOnward(b: seq<byte>): (r: Status)
    ensures !r.NeedMore?
  {
    if b == [] then Invalid("missing compression methods length")
    else if |b| < 1 + b[0] as int then Invalid("truncated compression methods")
    else ExtensionBlock(b[1 + b[0] as int..])
  }

  function CiphersOnward(b: seq<byte>): (r: Status)
    ensures !r.NeedMore?
  {
    if |b| < 2 then Invalid("missing cipher suites length")
    else
      var n := U16(b[0], b[1]);
      if |b| < 2 + n then Invalid("truncated cipher suites")
      else CompressionOnward(b[2 + n..])
  }

  function SessionOnward(b: seq<byte>): (r: Status)
    ensures !r.NeedMore?
  {
    if b == [] then Invalid("missing session id length")
    else if |b| < 1 + b[0] as int then Invalid("truncated session id")
    else CiphersOnward(b[1 + b[0] as int..])
  }

  function ClientHelloBody(body: seq<byte>): (r: Status)
    ensures !r.NeedMore?
  {
    if |body| < 34 then Invalid("truncated ClientHello") else SessionOnward(body[34..])
  }

  function Handshake(record: seq<byte>): Status {
    if |record| < 4 || record[0] != 1 then Invalid("not a TLS ClientHello")
    else
      var n := U24(record[1], record[2], record[3]);
      if |record| < 4 + n then NeedMore
      else ClientHelloBody(record[4..4 + n])
  }

  function TlsSni(buf: seq<byte>): Status {
    if |buf| < 5 then NeedMore
    else if buf[0] != 22 then Invalid("not a TLS handshake record")
    else
      var n := U16(buf[3], buf[4]);
      if |buf| < 5 + n then NeedMore
      else Handshake(buf[5..5 + n])
  }

  // ---------------------------------------------------------------- the code's cursors

  method ParseSniExtension(data: seq<byte>) returns (r: Status)
    ensures r == SniExtension(data)
  {
    if |data| < 2 {
      return Invalid("truncated SNI extension");
    }
    var listLen := U16(data[0], data[1]);
    if |data| < 2 + listLen {
      return Invalid("truncated SNI list");
    }
    var names := data[2..2 + listLen];
    while names != []
      invariant SniExtension(data) == ScanNames(names)
      decreases |names|
    {
      if |names| < 3 {
        return Invalid("truncated SNI name");
      }
      var nameLen := U16(names[1], names[2]);
      if |names| < 3 + nameLen {
        return Invalid("truncated SNI host");
      }
      if names[0] == 0 {
        return HostName(names[3..3 + nameLen]);
      }
      names := names[3 + nameLen..];
    }
    return Invalid("DNS SNI name not found");
  }

  /** The last loop of `parse_client_hello_body`. */
  method ParseExtensions(block: seq<byte>) returns (r: Status)
    ensures r == ScanExtensions(block)
  {
    var extensions := block;
    while extensions != []
      invariant ScanExtensions(block) == ScanExtensions(extensions)
      decreases |extensions|
    {
      if |extensions| < 4 {
        return Invalid("truncated extension header");
      }
      var extType := U16(extensions[0], extensions[1]);
      var extLen := U16(extensions[2], extensions[3]);
      if |extensions| < 4 + extLen {
        return Invalid("truncated extension");
      }
      if extType == 0 {
        r := ParseSniExtension(extensions[4..4 + extLen]);
        return;
      }
      extensions := extensions[4 + extLen..];
    }
    return Invalid("TLS SNI extension not found");
  }

  method ParseClientHelloBody(hello: seq<byte>) returns (r: Status)
    ensures r == ClientHelloBody(hello)
  {
    ghost var answer := ClientHelloBody(hello);
    var body := hello;
    if |body| < 34 {
      return Invalid("truncated ClientHello");
    }
    body := body[34..];
    assert answer == SessionOnward(body);
    if body == [] {
      return Invalid("missing session id length");
    }
    if |body| - 1 < body[0] as int {
      return Invalid("truncated session id");
    }
    body := body[1 + body[0] as int..];
    assert answer == CiphersOnward(body);
    if |body| < 2 {
      return Invalid("missing cipher suites length");
    }
    var cipherLen := U16(body[0], body[1]);
    if |body| < 2 + cipherLen {
      return Invalid("truncated cipher suites");
    }
    body := body[2 + cipherLen..];
    assert answer == CompressionOnward(body);
    if body == [] {
      return Invalid("missing compression methods length");
    }
    if |body| - 1 < body[0] as int {
      return Invalid("truncated compression methods");
    }
    body := body[1 + body[0] as int..];
    assert answer == ExtensionBlock(body);
    if |body| < 2 {
      return Invalid("missing extensions length");
    }
    var extensionsLen := U16(body[0], body[1]);
    if |body| < 2 + extensionsLen {
      return Invalid("truncated extensions");
    }
    r := ParseExtensions(body[2..2 + extensionsLen]);
  }

  method ParseTlsSni(buf: seq<byte>) returns (r: Status)
    ensures r == TlsSni(buf)
  {
    if |buf| < 5 {
      return NeedMore;
    }
    if buf[0] != 22 {
      return Invalid("not a TLS handshake record");
    }
    var recordEnd := 5 + U16(buf[3], buf[4]);
    if |buf| < recordEnd {
      return NeedMore;
    }
    var record := buf[5..recordEnd];
    if |record| < 4 || record[0] != 1 {
      return Invalid("not a TLS ClientHello");
    }
    var helloLen := U24(record[1], record[2], record[3]);
    if |record| < 4 + helloLen {
      return NeedMore;
    }
    r := ParseClientHelloBody(record[4..4 + helloLen]);
  }

  // ---------------------------------------------------------------- the grammar

  datatype Name = Name(kind: byte, data: seq<byte>)

  datatype Extension = Extension(kind: nat, data: seq<byte>)

  predicate NameFits(n: Name) { |n.data| < 0x1_0000 }

  predicate ExtensionFits(e: Extension) { e.kind < 0x1_0000 && |e.data| < 0x1_0000 }

  function PutName(n: Name): seq<byte> {
    [n.kind] + PutU16(|n.data|) + n.data
  }

  function PutNames(ns: seq<Name>): seq<byte> {
    if ns == [] then [] else PutName(ns[0]) + PutNames(ns[1..])
  }

  function PutExtension(e: Extension): seq<byte> {
    PutU16(e.kind) + PutU16(|e.data|) + e.data
  }

  function PutExtensions(es: seq<Extension>): seq<byte> {
    if es == [] then [] else PutExtension(es[0]) + PutExtensions(es[1..])
  }

  /** A 16-bit length, that many bytes, then whatever the reader leaves unread. */
  function PutVector16(v: seq<byte>, slack: seq<byte>): seq<byte> {
    PutU16(|v|) + v + slack
  }

  function PutVector8(v: seq<byte>): seq<byte> {
    [PutU8(|v|)] + v
  }

  function PutBody(fixed: seq<byte>, session: seq<byte>, ciphers: seq<byte>, compression: seq<byte>,
                   extensions: seq<byte>, slack: seq<byte>): seq<byte>
  {
    fixed + (PutVector8(session) + (PutVector16(ciphers, PutVector8(compression) + PutVector16(extensions, slack))))
  }

  function PutHandshake(body: seq<byte>, slack: seq<byte>): seq<byte> {
    [1] + PutU24(|body|) + body + slack
  }

  function PutRecord(version: seq<byte>, record: seq<byte>, trailing: seq<byte>): seq<byte> {
    [22] + version + PutVector16(record, trailing)
  }

  /** A buffer the parser accepts, cut into the parts it reads and the parts it leaves
      unread (`namesAfter`, `extensionsAfter`, the three slacks and `trailing`). */
  datatype Layout = Layout(
    version: seq<byte>,
    fixed: seq<byte>, session: seq<byte>, ciphers: seq<byte>, compression: seq<byte>,
    before: seq<Extension>,
    namesBefore: seq<Name>, host: seq<byte>, namesAfter: seq<byte>,
    sniSlack: seq<byte>, extensionsAfter: seq<byte>,
    helloSlack: seq<byte>, recordSlack: seq<byte>, trailing: seq<byte>)
  {
    function NameList(): seq<byte> {
      PutNames(namesBefore) + (PutName(Name(0, host)) + namesAfter)
    }

    function Sni(): seq<byte> {
      PutVector16(NameList(), sniSlack)
    }

    function Extensions(): seq<byte> {
      PutExtensions(before) + (PutExtension(Extension(0, Sni())) + extensionsAfter)
    }

    function Body(): seq<byte> {
      PutBody(fixed, session, ciphers, compression, Extensions(), helloSlack)
    }

    function Record(): seq<byte> {
      PutHandshake(Body(), recordSlack)
    }

    function Print(): seq<byte> {
      PutRecord(version, Record(), trailing)
    }

    /** No extension, and no name, of type 0 comes before the one that is read; the host is
        non-empty UTF-8; every length fits its field. */
    predicate Valid() {
      && |version| == 2 && |fixed| == 34
      && |session| < 256 && |ciphers| < 0x1_0000 && |compression| < 256
      && (forall i :: 0 <= i < |before| ==> ExtensionFits(before[i]) && before[i].kind != 0)
      && (forall i :: 0 <= i < |namesBefore| ==> NameFits(namesBefore[i]) && namesBefore[i].kind != 0)
      && host != [] && ValidUtf8(host) && |host| < 0x1_0000
      && |NameList()| < 0x1_0000 && |Sni()| < 0x1_0000 && |Extensions()| < 0x1_0000
      && |Record()| < 0x1_0000
    }
  }

  // ---------------------------------------------------------------- what is printed is read

  lemma CutVector(len: seq<byte>, v: seq<byte>, slack: seq<byte>)
    requires |len| == 2
    ensures var b := len + v + slack;
      && |b| == 2 + |v| + |slack| && b[0] == len[0] && b[1] == len[1]
      && b[2..2 + |v|] == v && b[2 + |v|..] == slack
  {
  }

  lemma CutExtension(kind: seq<byte>, len: seq<byte>, data: seq<byte>, rest: seq<byte>)
    requires |kind| == 2 && |len| == 2
    ensures var s := kind + len + data + rest;
      && |s| == 4 + |data| + |rest|
      && s[0] == kind[0] && s[1] == kind[1] && s[2] == len[0] && s[3] == len[1]
      && s[4..4 + |data|] == data && s[4 + |data|..] == rest
  {
  }

  lemma CutHandshake(kind: seq<byte>, len: seq<byte>, body: seq<byte>, slack: seq<byte>)
    requires |kind| == 1 && |len| == 3
    ensures var r := kind + len + body + slack;
      && |r| == 4 + |body| + |slack|
      && r[0] == kind[0] && r[1] == len[0] && r[2] == len[1] && r[3] == len[2]
      && r[4..4 + |body|] == body && r[4 + |body|..] == slack
  {
  }

  lemma ScanNamesStep(n: Name, rest: seq<byte>)
    requires NameFits(n)
    ensures ScanNames(PutName(n) + rest) == if n.kind == 0 then HostName(n.data) else ScanNames(rest)
  {
    var s := PutName(n) + rest;
    assert s[0] == n.kind && s[1..3] == PutU16(|n.data|);
    assert U16(s[1], s[2]) == |n.data|;
    assert s[3..3 + |n.data|] == n.data && s[3 + |n.data|..] == rest;
  }

  lemma {:induction false} ScanNamesSkips(ns: seq<Name>, rest: seq<byte>)
    requires forall i :: 0 <= i < |ns| ==> NameFits(ns[i]) && ns[i].kind != 0
    ensures ScanNames(PutNames(ns) + rest) == ScanNames(rest)
  {
    if ns == [] {
      assert PutNames(ns) + rest == rest;
    } else {
      var more := PutNames(ns[1..]) + rest;
      assert PutNames(ns) + rest == PutName(ns[0]) + more;
      ScanNamesStep(ns[0], more);
      ScanNamesSkips(ns[1..], rest);
    }
  }

  lemma SniExtensionReads(list: seq<byte>, slack: seq<byte>)
    requires |list| < 0x1_0000
    ensures SniExtension(PutVector16(list, slack)) == ScanNames(list)
  {
    CutVector(PutU16(|list|), list, slack);
  }

  lemma ScanExtensionsStep(e: Extension, rest: seq<byte>)
    requires ExtensionFits(e)
    ensures ScanExtensions(PutExtension(e) + rest) == if e.kind == 0 then SniExtension(e.data) else ScanExtensions(rest)
  {
    CutExtension(PutU16(e.kind), PutU16(|e.data|), e.data, rest);
  }

  lemma {:induction false} ScanExtensionsSkips(es: seq<Extension>, rest: seq<byte>)
    requires forall i :: 0 <= i < |es| ==> ExtensionFits(es[i]) && es[i].kind != 0
    ensures ScanExtensions(PutExtensions(es) + rest) == ScanExtensions(rest)
  {
    if es == [] {
      assert PutExtensions(es) + rest == rest;
    } else {
      var e, more := PutExtension(es[0]), PutExtensions(es[1..]) + rest;
      assert PutExtensions(es) + rest == e + more;
      ScanExtensionsStep(es[0], more);
      ScanExtensionsSkips(es[1..], rest);
    }
  }

  lemma ExtensionBlockReads(v: seq<byte>, slack: seq<byte>)
    requires |v| < 0x1_0000
    ensures ExtensionBlock(PutVector16(v, slack)) == ScanExtensions(v)
  {
    CutVector(PutU16(|v|), v, slack);
  }

  lemma CompressionReads(v: seq<byte>, rest: seq<byte>)
    requires |v| < 256
    ensures CompressionOnward(PutVector8(v) + rest) == ExtensionBlock(rest)
  {
    var b := PutVector8(v) + rest;
    assert b[1 + b[0] as int..] == rest;
  }

  lemma CiphersRead(v: seq<byte>, rest: seq<byte>)
    requires |v| < 0x1_0000
    ensures CiphersOnward(PutVector16(v, rest)) == CompressionOnward(rest)
  {
    CutVector(PutU16(|v|), v, rest);
  }

  lemma SessionReads(v: seq<byte>, rest: seq<byte>)
    requires |v| < 256
    ensures SessionOnward(PutVector8(v) + rest) == CiphersOnward(rest)
  {
    var b := PutVector8(v) + rest;
    assert b[1 + b[0] as int..] == rest;
  }

  lemma BodyReads(fixed: seq<byte>, session: seq<byte>, ciphers: seq<byte>, compression: seq<byte>,
                  extensions: seq<byte>, slack: seq<byte>)
    requires |fixed| == 34 && |session| < 256 && |ciphers| < 0x1_0000 && |compression| < 256
    requires |extensions| < 0x1_0000
    ensures ClientHelloBody(PutBody(fixed, session, ciphers, compression, extensions, slack))
         == ScanExtensions(extensions)
  {
    var e := PutVector16(extensions, slack);
    var c := PutVector16(ciphers, PutVector8(compression) + e);
    assert (fixed + (PutVector8(session) + c))[34..] == PutVector8(session) + c;
    SessionReads(session, c);
    CiphersRead(ciphers, PutVector8(compression) + e);
    CompressionReads(compression, e);
    ExtensionBlockReads(extensions, slack);
  }

  lemma HandshakeReads(body: seq<byte>, slack: seq<byte>)
    requires |body| < 0x100_0000
    ensures Handshake(PutHandshake(body, slack)) == ClientHelloBody(body)
  {
    CutHandshake([1], PutU24(|body|), body, slack);
  }

  lemma RecordReads(version: seq<byte>, record: seq<byte>, trailing: seq<byte>)
    requires |version| == 2 && |record| < 0x1_0000
    ensures TlsSni(PutRecord(version, record, trailing)) == Handshake(record)
    ensures forall k :: 0 <= k < 5 + |record| ==> TlsSni(PutRecord(version, record, trailing)[..k]) == NeedMore
  {
    var b := PutRecord(version, record, trailing);
    assert b[3..5] == PutU16(|record|);
    assert U16(b[3], b[4]) == |record|;
    assert b[5..5 + |record|] == record;
  }

  /** Every buffer of the accepted shape is accepted, with exactly its host. */
  lemma PrintedLayoutIsFound(l: Layout)
    requires l.Valid()
    ensures TlsSni(l.Print()) == Found(l.host)
  {
    RecordReads(l.version, l.Record(), l.trailing);
    HandshakeReads(l.Body(), l.recordSlack);
    BodyReads(l.fixed, l.session, l.ciphers, l.compression, l.Extensions(), l.helloSlack);
    ScanExtensionsSkips(l.before, PutExtension(Extension(0, l.Sni())) + l.extensionsAfter);
    ScanExtensionsStep(Extension(0, l.Sni()), l.extensionsAfter);
    SniExtensionReads(l.NameList(), l.sniSlack);
    ScanNamesSkips(l.namesBefore, PutName(Name(0, l.host)) + l.namesAfter);
    ScanNamesStep(Name(0, l.host), l.namesAfter);
  }

  // ---------------------------------------------------------------- what is read was printed

  lemma SplitVector16(b: seq<byte>) returns (v: seq<byte>, rest: seq<byte>)
    requires |b| >= 2 && |b| >= 2 + U16(b[0], b[1])
    ensures b == PutVector16(v, rest) && |v| == U16(b[0], b[1])
    ensures v == b[2..2 + |v|] && rest == b[2 + |v|..]
  {
    var n := U16(b[0], b[1]);
    v, rest := b[2..2 + n], b[2 + n..];
    PutU16Decodes(b[0], b[1]);
  }

  lemma SplitVector8(b: seq<byte>) returns (v: seq<byte>, rest: seq<byte>)
    requires |b| >= 1 && |b| >= 1 + b[0] as int
    ensures b == PutVector8(v) + rest && |v| < 256 && rest == b[1 + b[0] as int..]
  {
    var n := b[0] as int;
    v, rest := b[1..1 + n], b[1 + n..];
  }

  lemma SplitName(names: seq<byte>) returns (n: Name, rest: seq<byte>)
    requires |names| >= 3 && |names| >= 3 + U16(names[1], names[2])
    ensures NameFits(n) && names == PutName(n) + rest && n.kind == names[0]
    ensures n.data == names[3..3 + |n.data|] && rest == names[3 + |n.data|..] && |n.data| == U16(names[1], names[2])
  {
    var len := U16(names[1], names[2]);
    n, rest := Name(names[0], names[3..3 + len]), names[3 + len..];
    PutU16Decodes(names[1], names[2]);
  }

  lemma {:induction false} FoundNamesSplit(names: seq<byte>) returns (ns: seq<Name>, host: seq<byte>, rest: seq<byte>)
    requires ScanNames(names).Found?
    ensures forall i :: 0 <= i < |ns| ==> NameFits(ns[i]) && ns[i].kind != 0
    ensures |host| < 0x1_0000 && HostName(host) == ScanNames(names)
    ensures names == PutNames(ns) + (PutName(Name(0, host)) + rest)
    decreases |names|
  {
    var n, after := SplitName(names);
    if n.kind == 0 {
      ns, host, rest := [], n.data, after;
    } else {
      var ns';
      ns', host, rest := FoundNamesSplit(after);
      ns := [n] + ns';
      assert PutNames(ns) == PutName(n) + PutNames(ns') by {
        assert ns[1..] == ns';
      }
      Regroup(PutName(n), PutNames(ns'), PutName(Name(0, host)) + rest);
    }
  }

  lemma SplitExtension(exts: seq<byte>) returns (e: Extension, rest: seq<byte>)
    requires |exts| >= 4 && |exts| >= 4 + U16(exts[2], exts[3])
    ensures ExtensionFits(e) && exts == PutExtension(e) + rest && e.kind == U16(exts[0], exts[1])
    ensures e.data == exts[4..4 + |e.data|] && rest == exts[4 + |e.data|..] && |e.data| == U16(exts[2], exts[3])
  {
    var len := U16(exts[2], exts[3]);
    e, rest := Extension(U16(exts[0], exts[1]), exts[4..4 + len]), exts[4 + len..];
    PutU16Decodes(exts[0], exts[1]);
    PutU16Decodes(exts[2], exts[3]);
  }

  lemma {:induction false} FoundExtensionsSplit(exts: seq<byte>)
    returns (es: seq<Extension>, sni: seq<byte>, rest: seq<byte>)
    requires ScanExtensions(exts).Found?
    ensures forall i :: 0 <= i < |es| ==> ExtensionFits(es[i]) && es[i].kind != 0
    ensures |sni| < 0x1_0000 && SniExtension(sni) == ScanExtensions(exts)
    ensures exts == PutExtensions(es) + (PutExtension(Extension(0, sni)) + rest)
    decreases |exts|
  {
    var e, after := SplitExtension(exts);
    if e.kind == 0 {
      es, sni, rest := [], e.data, after;
    } else {
      var es';
      es', sni, rest := FoundExtensionsSplit(after);
      es := [e] + es';
      assert PutExtensions(es) == PutExtension(e) + PutExtensions(es') by {
        assert es[1..] == es';
      }
      Regroup(PutExtension(e), PutExtensions(es'), PutExtension(Extension(0, sni)) + rest);
    }
  }

  lemma FoundCiphersSplit(b: seq<byte>)
    returns (ciphers: seq<byte>, compression: seq<byte>, extensions: seq<byte>, slack: seq<byte>)
    requires CiphersOnward(b).Found?
    ensures |ciphers| < 0x1_0000 && |compression| < 256
    ensures |extensions| < 0x1_0000 && ScanExtensions(extensions) == CiphersOnward(b)
    ensures b == PutVector16(ciphers, PutVector8(compression) + PutVector16(extensions, slack))
  {
    var b1, b2;
    ciphers, b1 := SplitVector16(b);
    compression, b2 := SplitVector8(b1);
    extensions, slack := SplitVector16(b2);
  }

  lemma FoundBodySplit(body: seq<byte>)
    returns (fixed: seq<byte>, session: seq<byte>, ciphers: seq<byte>, compression: seq<byte>,
             extensions: seq<byte>, slack: seq<byte>)
    requires ClientHelloBody(body).Found?
    ensures |fixed| == 34 && |session| < 256 && |ciphers| < 0x1_0000 && |compression| < 256
    ensures |extensions| < 0x1_0000 && ScanExtensions(extensions) == ClientHelloBody(body)
    ensures body == PutBody(fixed, session, ciphers, compression, extensions, slack)
  {
    fixed := body[..34];
    var b1;
    session, b1 := SplitVector8(body[34..]);
    ciphers, compression, extensions, slack := FoundCiphersSplit(b1);
    assert body == fixed + body[34..];
  }

  lemma FoundHandshakeSplit(record: seq<byte>) returns (body: seq<byte>, slack: seq<byte>)
    requires Handshake(record).Found?
    ensures record == PutHandshake(body, slack) && ClientHelloBody(body) == Handshake(record)
  {
    var n := U24(record[1], record[2], record[3]);
    body, slack := record[4..4 + n], record[4 + n..];
    PutU24Decodes(record[1], record[2], record[3]);
  }

  lemma FoundRecordSplit(buf: seq<byte>) returns (version: seq<byte>, record: seq<byte>, trailing: seq<byte>)
    requires TlsSni(buf).Found?
    ensures |version| == 2 && |record| < 0x1_0000 && Handshake(record) == TlsSni(buf)
    ensures buf == PutRecord(version, record, trailing)
  {
    version := buf[1..3];
    var rest := buf[3..];
    record, trailing := SplitVector16(rest);
    assert record == buf[5..5 + |record|];
    assert buf == [22] + version + rest;
  }

  lemma FoundSniSplit(extensions: seq<byte>)
    returns (es: seq<Extension>, ns: seq<Name>, host: seq<byte>,
             namesAfter: seq<byte>, slack: seq<byte>, after: seq<byte>)
    requires ScanExtensions(extensions).Found?
    ensures forall i :: 0 <= i < |es| ==> ExtensionFits(es[i]) && es[i].kind != 0
    ensures forall i :: 0 <= i < |ns| ==> NameFits(ns[i]) && ns[i].kind != 0
    ensures |host| < 0x1_0000 && HostName(host) == ScanExtensions(extensions)
    ensures var list := PutNames(ns) + (PutName(Name(0, host)) + namesAfter);
      var sni := PutVector16(list, slack);
      && |list| < 0x1_0000 && |sni| < 0x1_0000
      && extensions == PutExtensions(es) + (PutExtension(Extension(0, sni)) + after)
  {
    var sni, list;
    es, sni, after := FoundExtensionsSplit(extensions);
    list, slack := SplitVector16(sni);
    ns, host, namesAfter := FoundNamesSplit(list);
  }

  /** Every accepted buffer has the accepted shape: slack occurs nowhere else. */
  lemma FoundBufferHasLayout(buf: seq<byte>) returns (l: Layout)
    requires TlsSni(buf).Found?
    ensures l.Valid() && l.Print() == buf && TlsSni(buf) == Found(l.host)
  {
    hide TlsSni, Handshake, ClientHelloBody, ScanExtensions;
    var version, record, trailing := FoundRecordSplit(buf);
    var body, recordSlack := FoundHandshakeSplit(record);
    var fixed, session, ciphers, compression, extensions, helloSlack := FoundBodySplit(body);
    var es, ns, host, namesAfter, sniSlack, extensionsAfter := FoundSniSplit(extensions);
    l := Layout(version, fixed, session, ciphers, compression, es, ns, host, namesAfter,
                sniSlack, extensionsAfter, helloSlack, recordSlack, trailing);
    assert l.Extensions() == extensions;
    assert l.Body() == body;
  }

  /** The parser accepts exactly the grammar with slack. */
  lemma AcceptsExactlyTheGrammar(buf: seq<byte>, host: seq<byte>)
    ensures TlsSni(buf) == Found(host) <==> exists l: Layout :: l.Valid() && l.Print() == buf && l.host == host
  {
    if TlsSni(buf) == Found(host) {
      var l := FoundBufferHasLayout(buf);
      assert l.Valid() && l.Print() == buf && l.host == host;
    }
    if l: Layout :| l.Valid() && l.Print() == buf && l.host == host {
      PrintedLayoutIsFound(l);
    }
  }

  // ---------------------------------------------------------------- growing the buffer

  /** Once the parser answers, more bytes never change its answer. */
  lemma AnswerIsStable(buf: seq<byte>, more: seq<byte>)
    requires !TlsSni(buf).NeedMore?
    ensures TlsSni(buf + more) == TlsSni(buf)
  {
    if buf[0] == 22 {
      var n := U16(buf[3], buf[4]);
      assert (buf + more)[5..5 + n] == buf[5..5 + n];
    }
  }

  function Padded(buf: seq<byte>, i: nat): byte {
    if i < |buf| then buf[i] else 0
  }

  /** The record announces at least the four bytes of a ClientHello header, and less than that
      header announces. */
  predicate SpansRecords(buf: seq<byte>) {
    && |buf| > 5 && buf[0] == 22 && buf[5] == 1
    && 4 <= U16(buf[3], buf[4]) < 4 + U24(Padded(buf, 6), Padded(buf, 7), Padded(buf, 8))
  }

  lemma SpanningNeverAnswers(buf: seq<byte>, more: seq<byte>)
    requires SpansRecords(buf)
    ensures TlsSni(buf + more).NeedMore?
  {
    var b := buf + more;
    var n := U16(b[3], b[4]);
    if |b| >= 5 + n {
      var r := b[5..5 + n];
      assert r[0] == buf[5] && r[1] == b[6] && r[2] == b[7] && r[3] == b[8];
      assert U24(r[1], r[2], r[3]) >= U24(Padded(buf, 6), Padded(buf, 7), Padded(buf, 8));
    }
  }

  lemma ZerosAnswer(buf: seq<byte>, zeros: seq<byte>)
    requires !SpansRecords(buf)
    requires |zeros| == 0x1_0010 && forall i :: 0 <= i < |zeros| ==> zeros[i] == 0
    ensures !TlsSni(buf + zeros).NeedMore?
  {
    var b := buf + zeros;
    var n := U16(b[3], b[4]);
    if b[0] == 22 && n >= 4 && b[5] == 1 {
      var r := b[5..5 + n];
      assert r[1] == Padded(buf, 6) && r[2] == Padded(buf, 7) && r[3] == Padded(buf, 8);
    }
  }

  /** A buffer that no continuation gets an answer for is exactly one whose first record holds
      a ClientHello header, or the start of one, that announces more than the record does. */
  lemma HopelessExactlyWhenSpanning(buf: seq<byte>)
    ensures (forall more :: TlsSni(buf + more).NeedMore?) <==> SpansRecords(buf)
  {
    if SpansRecords(buf) {
      forall more: seq<byte>
        ensures TlsSni(buf + more).NeedMore?
      {
        SpanningNeverAnswers(buf, more);
      }
    } else {
      var zeros := seq(0x1_0010, i => 0 as byte);
      ZerosAnswer(buf, zeros);
    }
  }

  // ---------------------------------------------------------------- clients' own messages

  /** The server_name extension of section 3 of RFC 6066. */
  function ServerNames(names: seq<Name>): seq<byte> {
    PutVector16(PutNames(names), [])
  }

  /** A ClientHello of section 4.1.2 of RFC 8446; `fixed` is the version and the random. */
  datatype ClientHello = ClientHello(fixed: seq<byte>, session: seq<byte>, ciphers: seq<byte>,
                                     compression: seq<byte>, extensions: seq<Extension>)
  {
    function Body(): seq<byte> {
      PutBody(fixed, session, ciphers, compression, PutExtensions(extensions), [])
    }

    function Message(): seq<byte> {
      PutHandshake(Body(), [])
    }

    function Serialize(): seq<byte> {
      PutRecord([3, 1], Message(), [])
    }

    /** Every length fits its field. */
    predicate Fits() {
      && |fixed| == 34 && |session| < 256 && |ciphers| < 0x1_0000 && |compression| < 256
      && (forall i :: 0 <= i < |extensions| ==> ExtensionFits(extensions[i]))
      && |PutExtensions(extensions)| < 0x1_0000
    }

    predicate FitsOneRecord() {
      Fits() && |Message()| < 0x1_0000
    }

    /** The first server_name extension is the `i`-th and lists `names`, whose first host_name
        is the `j`-th. */
    predicate NamesFirst(i: nat, names: seq<Name>, j: nat) {
      && i < |extensions| && j < |names|
      && extensions[i] == Extension(0, ServerNames(names))
      && (forall e :: 0 <= e < i ==> extensions[e].kind != 0)
      && (forall n :: 0 <= n < |names| ==> NameFits(names[n]))
      && (forall n :: 0 <= n < j ==> names[n].kind != 0)
      && names[j].kind == 0 && names[j].data != [] && ValidUtf8(names[j].data)
    }
  }

  lemma {:induction false} PutNamesSplits(ns: seq<Name>, i: nat)
    requires i < |ns|
    ensures PutNames(ns) == PutNames(ns[..i]) + (PutName(ns[i]) + PutNames(ns[i + 1..]))
  {
    if i == 0 {
      assert PutNames(ns[..0]) == [];
    } else {
      PutNamesSplits(ns[1..], i - 1);
      assert ns[1..][..i - 1] == ns[..i][1..] && ns[1..][i..] == ns[i + 1..];
    }
  }

  lemma {:induction false} PutExtensionsSplits(es: seq<Extension>, i: nat)
    requires i < |es|
    ensures PutExtensions(es) == PutExtensions(es[..i]) + (PutExtension(es[i]) + PutExtensions(es[i + 1..]))
  {
    if i == 0 {
      assert PutExtensions(es[..0]) == [];
    } else {
      PutExtensionsSplits(es[1..], i - 1);
      assert es[1..][..i - 1] == es[..i][1..] && es[1..][i..] == es[i + 1..];
    }
  }

  lemma MessageReads(h: ClientHello)
    requires h.Fits()
    ensures |h.Body()| < 0x100_0000 && Handshake(h.Message()) == ScanExtensions(PutExtensions(h.extensions))
  {
    hide ClientHelloBody, ScanExtensions, Handshake;
    assert |h.Body()| < 0x100_0000;
    HandshakeReads(h.Body(), []);
    BodyReads(h.fixed, h.session, h.ciphers, h.compression, PutExtensions(h.extensions), []);
  }

  lemma SerializedIsRecord(h: ClientHello, trailing: seq<byte>)
    requires h.FitsOneRecord()
    ensures TlsSni(h.Serialize() + trailing) == ScanExtensions(PutExtensions(h.extensions))
    ensures forall k :: 0 <= k < |h.Serialize()| ==> TlsSni(h.Serialize()[..k]).NeedMore?
  {
    var record := h.Message();
    assert h.Serialize() + trailing == PutRecord([3, 1], record, trailing);
    RecordReads([3, 1], record, trailing);
    RecordReads([3, 1], record, []);
    MessageReads(h);
  }

  lemma ScansToName(h: ClientHello, i: nat, names: seq<Name>, j: nat)
    requires h.Fits() && h.NamesFirst(i, names, j)
    ensures ScanExtensions(PutExtensions(h.extensions)) == Found(names[j].data)
  {
    PutExtensionsSplits(h.extensions, i);
    var sni := ServerNames(names);
    var after := PutExtensions(h.extensions[i + 1..]);
    ScanExtensionsSkips(h.extensions[..i], PutExtension(h.extensions[i]) + after);
    ScanExtensionsStep(h.extensions[i], after);
    SniExtensionReads(PutNames(names), []);
    PutNamesSplits(names, j);
    ScanNamesSkips(names[..j], PutName(names[j]) + PutNames(names[j + 1..]));
    ScanNamesStep(names[j], PutNames(names[j + 1..]));
  }

  /** Round trip: the first host_name of the first server_name extension is found, whatever
      follows the record, and no strict prefix of the record answers. */
  lemma SerializedHelloIsFound(h: ClientHello, i: nat, names: seq<Name>, j: nat, trailing: seq<byte>)
    requires h.FitsOneRecord() && h.NamesFirst(i, names, j)
    ensures TlsSni(h.Serialize() + trailing) == Found(names[j].data)
    ensures forall k :: 0 <= k < |h.Serialize()| ==> TlsSni(h.Serialize()[..k]).NeedMore?
  {
    SerializedIsRecord(h, trailing);
    ScansToName(h, i, names, j);
  }

  lemma SerializedHelloWithoutSni(h: ClientHello, trailing: seq<byte>)
    requires h.FitsOneRecord()
    requires forall e :: 0 <= e < |h.extensions| ==> h.extensions[e].kind != 0
    ensures TlsSni(h.Serialize() + trailing) == Invalid("TLS SNI extension not found")
  {
    SerializedIsRecord(h, trailing);
    ScanExtensionsSkips(h.extensions, []);
    assert PutExtensions(h.extensions) + [] == PutExtensions(h.extensions);
  }
}
