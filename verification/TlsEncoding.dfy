/**
 The ClientHello encoding of section 4.1.2 of RFC 8446, with the extension
 bodies of section 3 of RFC 6066, section 3.1 of RFC 7301, sections 4.2.1,
 4.2.3 and 4.2.7 of RFC 8446 and section 5.1.2 of RFC 8422, as the
 specification the parser inverts.
 */
module TlsEncoding {
  import opened Bytes
  import opened TlsParser
  import opened Wrappers

  datatype Extension =
    | ServerName(name: seq<byte>)
    | SupportedGroups(groups: seq<uint16>)
    | PointFormats(formats: seq<byte>)
    | SignatureAlgs(algs: seq<uint16>)
    | Alpn(protos: seq<seq<byte>>)
    | SupportedVersions(versions: seq<uint16>)
    | Other(typ: uint16, raw: seq<byte>)

  /** `exts` is None in a hello that ends after its compression methods. */
  datatype ClientHello = ClientHello(
    version: uint16,
    random: seq<byte>,
    sessionId: seq<byte>,
    ciphers: seq<uint16>,
    compression: seq<byte>,
    exts: Option<seq<Extension>>)

  /** The code points of section 4.2 of RFC 8446 and section 5.1 of RFC 8422. */
  function TypeOf(e: Extension): uint16 {
    match e
    case ServerName(_) => 0
    case SupportedGroups(_) => 10
    case PointFormats(_) => 11
    case SignatureAlgs(_) => 13
    case Alpn(_) => 16
    case SupportedVersions(_) => 43
    case Other(typ, _) => typ
  }

  predicate Recognised(typ: uint16) {
    typ in {0, 10, 11, 13, 16, 43}
  }

  predicate ShortNames(ps: seq<seq<byte>>) {
    forall p :: p in ps ==> |p| < 0x100
  }

  function NamesWire(ps: seq<seq<byte>>): seq<byte>
    requires ShortNames(ps)
  {
    if ps == [] then [] else [|ps[0]|] + ps[0] + NamesWire(ps[1..])
  }

  /** Every length fits its length field. */
  predicate WfExt(e: Extension) {
    match e
    case ServerName(name) => |name| + 5 < 0x1_0000
    case SupportedGroups(groups) => 2 * |groups| + 2 < 0x1_0000
    case PointFormats(formats) => |formats| < 0x100
    case SignatureAlgs(algs) => 2 * |algs| + 2 < 0x1_0000
    case Alpn(protos) => ShortNames(protos) && |NamesWire(protos)| + 2 < 0x1_0000
    case SupportedVersions(versions) => 2 * |versions| < 0x100
    case Other(typ, raw) => !Recognised(typ) && |raw| < 0x1_0000
  }

  function BodyOf(e: Extension): (r: seq<byte>)
    requires WfExt(e)
    ensures |r| < 0x1_0000
  {
    match e
    case ServerName(name) => PutU16(|name| + 3) + [0] + PutU16(|name|) + name
    case SupportedGroups(groups) => PutU16(2 * |groups|) + PutU16s(groups)
    case PointFormats(formats) => [|formats|] + formats
    case SignatureAlgs(algs) => PutU16(2 * |algs|) + PutU16s(algs)
    case Alpn(protos) => PutU16(|NamesWire(protos)|) + NamesWire(protos)
    case SupportedVersions(versions) => [2 * |versions|] + PutU16s(versions)
    case Other(_, raw) => raw
  }

  predicate WfExts(es: seq<Extension>) {
    forall e :: e in es ==> WfExt(e)
  }

  predicate DistinctTypes(es: seq<Extension>) {
    forall i, j :: 0 <= i < j < |es| ==> TypeOf(es[i]) != TypeOf(es[j])
  }

  function ExtWire(e: Extension): (r: seq<byte>)
    requires WfExt(e)
    ensures |r| == 4 + |BodyOf(e)|
  {
    PutU16(TypeOf(e)) + PutU16(|BodyOf(e)|) + BodyOf(e)
  }

  function ExtsWire(es: seq<Extension>): seq<byte>
    requires WfExts(es)
  {
    if es == [] then [] else ExtWire(es[0]) + ExtsWire(es[1..])
  }

  function Exts(h: ClientHello): seq<Extension> {
    match h.exts
    case None => []
    case Some(es) => es
  }

  function ExtBlock(h: ClientHello): seq<byte>
    requires WfExts(Exts(h)) && |ExtsWire(Exts(h))| < 0x1_0000
  {
    match h.exts
    case None => []
    case Some(es) => PutU16(|ExtsWire(es)|) + ExtsWire(es)
  }

  predicate WfParts(h: ClientHello) {
    && |h.random| == 32 && |h.sessionId| < 0x100
    && 2 * |h.ciphers| < 0x1_0000 && |h.compression| < 0x100
    && WfExts(Exts(h)) && |ExtsWire(Exts(h))| < 0x1_0000
  }

  function Opening(h: ClientHello): (r: seq<byte>)
    requires WfParts(h)
    ensures |r| == 35 + |h.sessionId|
  {
    PutU16(h.version) + h.random + [|h.sessionId|] + h.sessionId
  }

  function BodyWire(h: ClientHello): seq<byte>
    requires WfParts(h)
  {
    Opening(h)
    + (PutU16(2 * |h.ciphers|) + PutU16s(h.ciphers))
    + ([|h.compression|] + h.compression)
    + ExtBlock(h)
  }

  /** Well formed, extension types distinct, small enough for one record. */
  predicate Wf(h: ClientHello) {
    WfParts(h) && DistinctTypes(Exts(h)) && |BodyWire(h)| + 4 < 0x1_0000
  }

  /** The record header of section 5.1 and the handshake header of section 4 of RFC 8446. */
  function HeaderWire(recordVersion: uint16, n: nat): (r: seq<byte>)
    requires n + 4 < 0x1_0000
    ensures |r| == 9
  {
    [0x16] + PutU16(recordVersion) + PutU16(n + 4) + [0x01] + PutU24(n)
  }

  function RecordWire(recordVersion: uint16, h: ClientHello): seq<byte>
    requires Wf(h)
  {
    HeaderWire(recordVersion, |BodyWire(h)|) + BodyWire(h)
  }

  // ------------------------------------------------------------------
  // Extension bodies
  // ------------------------------------------------------------------

  lemma ServerNameInverse(name: seq<byte>)
    requires WfExt(ServerName(name))
    ensures ServerNameOf(BodyOf(ServerName(name))) == name
  {
    var b := BodyOf(ServerName(name));
    assert b[3..] == PutU16(|name|) + name;
    GetPut16(|name|, name);
    assert b[5..5 + |name|] == name;
  }

  lemma U16ListInverse(vs: seq<uint16>)
    requires 2 * |vs| + 2 < 0x1_0000
    ensures U16ListOf(PutU16(2 * |vs|) + PutU16s(vs)) == vs
  {
    U16ListFrom(PutU16s(vs));
    GetPutU16s(vs);
  }

  lemma U16ListFrom(wire: seq<byte>)
    requires |wire| < 0x1_0000
    ensures U16ListOf(PutU16(|wire|) + wire) == GetU16s(wire)
  {
    var data := PutU16(|wire|) + wire;
    GetPut16(|wire|, wire);
    assert wire[..|wire|] == wire;
  }

  lemma PointFormatsInverse(formats: seq<byte>)
    requires WfExt(PointFormats(formats))
    ensures PointFormatsOf(BodyOf(PointFormats(formats))) == formats
  {
    assert BodyOf(PointFormats(formats))[1..] == formats;
  }

  lemma VersionsInverse(vs: seq<uint16>)
    requires WfExt(SupportedVersions(vs))
    ensures VersionsOf(BodyOf(SupportedVersions(vs))) == vs
  {
    GetPutU16s(vs);
    assert BodyOf(SupportedVersions(vs))[1..] == PutU16s(vs);
    assert PutU16s(vs)[..2 * |vs|] == PutU16s(vs);
  }

  lemma {:induction false} NamesInverse(ps: seq<seq<byte>>)
    requires ShortNames(ps)
    ensures NamesOf(NamesWire(ps), |NamesWire(ps)|) == ps
  {
    if ps != [] {
      var s, later := NamesWire(ps), NamesWire(ps[1..]);
      assert s[1..1 + |ps[0]|] == ps[0];
      assert s[1 + |ps[0]|..] == later;
      NamesInverse(ps[1..]);
    }
  }

  lemma AlpnInverse(ps: seq<seq<byte>>)
    requires WfExt(Alpn(ps))
    ensures AlpnOf(BodyOf(Alpn(ps))) == ps
  {
    GetPut16(|NamesWire(ps)|, NamesWire(ps));
    NamesInverse(ps);
  }

  // ------------------------------------------------------------------
  // The extension block
  // ------------------------------------------------------------------

  ghost function RawOf(e: Extension): RawExt
    requires WfExt(e)
  {
    RawExt(TypeOf(e), |BodyOf(e)|, BodyOf(e))
  }

  ghost function RawsOf(es: seq<Extension>): (r: seq<RawExt>)
    requires WfExts(es)
    ensures |r| == |es| && forall i :: 0 <= i < |es| ==> r[i] == RawOf(es[i])
  {
    if es == [] then [] else [RawOf(es[0])] + RawsOf(es[1..])
  }

  lemma ExtInverse(pre: seq<byte>, e: Extension, post: seq<byte>)
    requires WfExt(e)
    ensures ExtAt(pre + ExtWire(e) + post, |pre|) == RawOf(e)
  {
    hide BodyOf, WfExt, TypeOf, GetU16, PutU16;
    var data, body := pre + ExtWire(e) + post, BodyOf(e);
    assert data[|pre|..] == PutU16(TypeOf(e)) + (PutU16(|body|) + body + post);
    assert data[|pre| + 2..] == PutU16(|body|) + (body + post);
    assert data[|pre| + 4..] == body + post;
    GetPut16(TypeOf(e), PutU16(|body|) + body + post);
    GetPut16(|body|, body + post);
    assert (body + post)[..|body|] == body;
  }

  lemma {:induction false} ExtsInverse(pre: seq<byte>, es: seq<Extension>, rest: seq<byte>)
    requires WfExts(es)
    ensures var data := pre + ExtsWire(es) + rest;
            ExtsWithin(data, |pre|, |data| - |rest|) == RawsOf(es)
    decreases |es|
  {
    hide ExtAt, ExtWire, BodyOf;
    var data := pre + ExtsWire(es) + rest;
    if es != [] {
      var post := ExtsWire(es[1..]) + rest;
      assert data == pre + ExtWire(es[0]) + post;
      ExtInverse(pre, es[0], post);
      assert data == (pre + ExtWire(es[0])) + ExtsWire(es[1..]) + rest;
      ExtsInverse(pre + ExtWire(es[0]), es[1..], rest);
    }
  }

  lemma {:induction false} LastBodyIs(exts: seq<RawExt>, i: nat)
    requires i < |exts| && forall j :: i < j < |exts| ==> exts[j].typ != exts[i].typ
    ensures LastBody(exts, exts[i].typ) == Some(exts[i].body)
    decreases |exts|
  {
    var n := |exts| - 1;
    if i < n { LastBodyIs(exts[..n], i); }
  }

  lemma {:induction false} NoLastBody(exts: seq<RawExt>, typ: uint16)
    requires forall j :: 0 <= j < |exts| ==> exts[j].typ != typ
    ensures LastBody(exts, typ) == None
    decreases |exts|
  {
    if exts != [] { NoLastBody(exts[..|exts| - 1], typ); }
  }

  /** With distinct types, the last extension of a type is the only one. */
  lemma LastBodyAt(es: seq<Extension>, i: nat)
    requires WfExts(es) && DistinctTypes(es) && i < |es|
    ensures LastBody(RawsOf(es), TypeOf(es[i])) == Some(BodyOf(es[i]))
  {
    hide BodyOf, WfExt, LastBody, TypeOf;
    LastBodyIs(RawsOf(es), i);
  }

  ghost predicate Lacks(es: seq<Extension>, typ: uint16) {
    forall i :: 0 <= i < |es| ==> TypeOf(es[i]) != typ
  }

  lemma NoBody(es: seq<Extension>, typ: uint16)
    requires WfExts(es) && Lacks(es, typ)
    ensures LastBody(RawsOf(es), typ) == None
  {
    hide BodyOf, WfExt, LastBody, TypeOf;
    NoLastBody(RawsOf(es), typ);
  }

  // ------------------------------------------------------------------
  // The whole message
  // ------------------------------------------------------------------

  lemma PreludeInverse(h: ClientHello, rest: seq<byte>, spare: nat)
    requires WfParts(h)
    ensures PreludeOf(BodyWire(h) + rest, spare) ==
            Read(h.version, h.ciphers, |BodyWire(h)| - |ExtBlock(h)|)
  {
    hide PreludeOf, GetU16, GetU16s, PutU16, PutU16s, Opening, ExtBlock;
    var data, n := BodyWire(h) + rest, 2 * |h.ciphers|;
    var tail := [|h.compression|] + h.compression + ExtBlock(h) + rest;
    assert data == Opening(h) + (PutU16(n) + PutU16s(h.ciphers)) + tail;
    OpeningAt(h, data);
    CiphersAt(Opening(h), h.ciphers, tail);
    GetPutU16s(h.ciphers);
    PreludeFrom(data, spare, n);
  }

  /** A body whose even cipher vector is followed by something. */
  lemma PreludeFrom(data: seq<byte>, spare: nat, n: nat)
    requires |data| >= 37 && n % 2 == 0 && 37 + data[34] as int + n < |data|
    requires GetU16(data[35 + data[34] as int..]) == n
    ensures var vec := 37 + data[34] as int;
            PreludeOf(data, spare) ==
            Read(GetU16(data), GetU16s(data[vec..][..n]), vec + n + 1 + data[vec + n])
  {}

  lemma OpeningAt(h: ClientHello, data: seq<byte>)
    requires WfParts(h) && Opening(h) <= data
    ensures GetU16(data) == h.version && data[34] == |h.sessionId|
  {
    assert data[0] == Opening(h)[0] && data[1] == Opening(h)[1] && data[34] == Opening(h)[34];
    GetPut16(h.version, []);
  }

  lemma CiphersAt(pre: seq<byte>, ciphers: seq<uint16>, tail: seq<byte>)
    requires 2 * |ciphers| < 0x1_0000 && tail != []
    ensures var n := 2 * |ciphers|;
            var data := pre + (PutU16(n) + PutU16s(ciphers)) + tail;
            && GetU16(data[|pre|..]) == n
            && data[|pre| + 2..][..n] == PutU16s(ciphers)
            && data[|pre| + 2 + n] == tail[0]
  {
    hide GetU16, PutU16, PutU16s;
    var n, cs := 2 * |ciphers|, PutU16s(ciphers);
    var data := pre + (PutU16(n) + cs) + tail;
    var rest := cs + tail;
    assert data == pre + (PutU16(n) + rest);
    assert data[|pre|..] == PutU16(n) + rest;
    GetPut16(n, rest);
    assert data[|pre| + 2..] == rest;
    assert rest[..n] == cs && rest[n] == tail[0];
  }

  lemma BlockInverse(h: ClientHello, rest: seq<byte>)
    requires WfParts(h) && (h.exts.None? ==> |rest| < 2)
    ensures ExtsAt(BodyWire(h) + rest, |BodyWire(h)| - |ExtBlock(h)|) == RawsOf(Exts(h))
  {
    hide ExtsAt, ExtsWire, Opening;
    var data := BodyWire(h);
    var pre := data[..|data| - |ExtBlock(h)|];
    assert data == pre + ExtBlock(h);
    if h.exts.Some? {
      var es := h.exts.value;
      assert data + rest == pre + (PutU16(|ExtsWire(es)|) + ExtsWire(es)) + rest;
      BlockAt(pre, es, |ExtsWire(es)|, rest);
    } else {
      NoBlock(data + rest, |data|);
    }
  }

  lemma NoBlock(data: seq<byte>, pos: nat)
    requires |data| < pos + 2
    ensures ExtsAt(data, pos) == [] == RawsOf([])
  {}

  /** The declared length ends the block, or the data does if that comes first. */
  lemma BlockAt(pre: seq<byte>, es: seq<Extension>, n: uint16, rest: seq<byte>)
    requires WfExts(es) && |ExtsWire(es)| <= n && (rest == [] || n == |ExtsWire(es)|)
    ensures ExtsAt(pre + (PutU16(n) + ExtsWire(es)) + rest, |pre|) == RawsOf(es)
  {
    hide GetU16, PutU16, ExtsWire, RawsOf, ExtsWithin;
    var wire := ExtsWire(es);
    var data := pre + (PutU16(n) + wire) + rest;
    assert data[|pre|..] == PutU16(n) + (wire + rest);
    GetPut16(n, wire + rest);
    assert data == (pre + PutU16(n)) + wire + rest;
    ExtsInverse(pre + PutU16(n), es, rest);
  }

  lemma FramingInverse(recordVersion: uint16, h: ClientHello, rest: seq<byte>)
    requires Wf(h)
    ensures var data := RecordWire(recordVersion, h) + rest;
            FramingOf(data) == Hello(|BodyWire(h)|) && data[9..][..|BodyWire(h)|] == BodyWire(h)
  {
    var n, hello := |BodyWire(h)|, BodyWire(h) + rest;
    assert RecordWire(recordVersion, h) + rest == HeaderWire(recordVersion, n) + hello;
    HeaderInverse(recordVersion, n, hello);
    assert hello[..n] == BodyWire(h);
  }

  lemma HeaderInverse(recordVersion: uint16, n: nat, hello: seq<byte>)
    requires n + 4 < 0x1_0000 && n <= |hello|
    ensures var data := HeaderWire(recordVersion, n) + hello;
            FramingOf(data) == Hello(n) && data[9..] == hello
  {
    var data := HeaderWire(recordVersion, n) + hello;
    var hs := [0x01] + PutU24(n) + hello;
    assert data[3..] == PutU16(n + 4) + hs;
    GetPut16(n + 4, hs);
    assert data[6..] == PutU24(n) + hello;
    GetPut24(n, hello);
  }

  /** Each extension's content reached its field. */
  ghost predicate Delivered(info: ClientHelloInfo, e: Extension) {
    match e
    case ServerName(name) => info.serverName == name
    case SupportedGroups(groups) => info.ellipticCurves == groups
    case PointFormats(formats) => info.ecPointFormats == formats
    case SignatureAlgs(algs) => info.signatureAlgs == algs
    case Alpn(protos) => info.alpn == protos
    case SupportedVersions(versions) => info.supportedVersions == versions
    case Other(_, _) => true
  }

  /** A field whose extension is absent is empty. */
  ghost predicate EmptyIfAbsent(info: ClientHelloInfo, es: seq<Extension>) {
    && (Lacks(es, 0) ==> info.serverName == [])
    && (Lacks(es, 10) ==> info.ellipticCurves == [])
    && (Lacks(es, 11) ==> info.ecPointFormats == [])
    && (Lacks(es, 13) ==> info.signatureAlgs == [])
    && (Lacks(es, 16) ==> info.alpn == [])
    && (Lacks(es, 43) ==> info.supportedVersions == [])
  }

  /** The largest non-GREASE version above 0 offered, else the legacy version. */
  ghost predicate VersionSettled(used: uint16, legacy: uint16, offered: seq<uint16>) {
    if exists v :: v in offered && v > 0 && !IsGrease(v) then
      && used in offered && used > 0 && !IsGrease(used)
      && forall v :: v in offered && !IsGrease(v) ==> v <= used
    else used == legacy
  }

  ghost predicate Reports(info: ClientHelloInfo, h: ClientHello) {
    && info.cipherSuites == h.ciphers
    && |info.extensions| == |Exts(h)|
    && (forall i :: 0 <= i < |Exts(h)| ==> info.extensions[i] == TypeOf(Exts(h)[i]))
    && (forall e :: e in Exts(h) ==> Delivered(info, e))
    && EmptyIfAbsent(info, Exts(h))
    && VersionSettled(info.tlsVersion, h.version, info.supportedVersions)
  }

  lemma SettledVersion(legacy: uint16, offered: seq<uint16>)
    ensures VersionSettled(VersionUsed(legacy, offered), legacy, offered)
  {}

  lemma DeliveredBy(info: ClientHelloInfo, h: ClientHello, e: Extension)
    requires WfParts(h) && DistinctTypes(Exts(h)) && e in Exts(h)
    requires info == Settle(Gather(h.version, h.ciphers, RawsOf(Exts(h))))
    ensures Delivered(info, e)
  {
    var i :| 0 <= i < |Exts(h)| && Exts(h)[i] == e;
    LastBodyAt(Exts(h), i);
    match e
    case ServerName(name) => ServerNameInverse(name);
    case SupportedGroups(groups) => U16ListInverse(groups);
    case PointFormats(formats) => PointFormatsInverse(formats);
    case SignatureAlgs(algs) => U16ListInverse(algs);
    case Alpn(protos) => AlpnInverse(protos);
    case SupportedVersions(versions) => VersionsInverse(versions);
    case Other(_, _) =>
  }

  lemma AbsentField<T>(es: seq<Extension>, typ: uint16, parse: seq<byte> -> seq<T>)
    requires WfExts(es)
    ensures Lacks(es, typ) ==> Field(RawsOf(es), typ, parse) == []
  {
    if Lacks(es, typ) { NoBody(es, typ); }
  }

  lemma AbsentFields(info: ClientHelloInfo, h: ClientHello)
    requires WfParts(h) && DistinctTypes(Exts(h))
    requires info == Settle(Gather(h.version, h.ciphers, RawsOf(Exts(h))))
    ensures EmptyIfAbsent(info, Exts(h))
  {
    var es := Exts(h);
    AbsentField(es, 0, ServerNameOf);
    AbsentField(es, 10, U16ListOf);
    AbsentField(es, 11, PointFormatsOf);
    AbsentField(es, 13, U16ListOf);
    AbsentField(es, 16, AlpnOf);
    AbsentField(es, 43, VersionsOf);
  }

  /** Parsing the record that carries a well-formed hello, with anything behind
      it, reports exactly that hello. */
  lemma RoundTrip(recordVersion: uint16, h: ClientHello, rest: seq<byte>, spare: nat)
    requires Wf(h)
    ensures var r := HelloOutcome(RecordWire(recordVersion, h) + rest, spare);
            r.Parsed? && Reports(r.info, h)
  {
    hide Reports, FramingOf, BodyOutcome, RecordWire, BodyWire, Settle, Gather, RawsOf, WfExts, DistinctTypes, ExtsWire;
    FramingInverse(recordVersion, h, rest);
    var data, n := RecordWire(recordVersion, h) + rest, |BodyWire(h)|;
    BodyParsed(h, spare + |data| - 9 - n);
    BodyReported(Settle(Gather(h.version, h.ciphers, RawsOf(Exts(h)))), h);
  }

  /** A record cut short anywhere is rejected as such, never half parsed. */
  lemma TruncatedRecord(recordVersion: uint16, h: ClientHello, n: nat, spare: nat)
    requires Wf(h) && n < |RecordWire(recordVersion, h)|
    ensures HelloOutcome(RecordWire(recordVersion, h)[..n], spare) ==
            Failed(if n < 5 then RecordTooShort else IncompleteRecord)
  {
    hide BodyWire, GetU16, PutU16, GetU24, PutU24;
    var data, body := RecordWire(recordVersion, h), BodyWire(h);
    if n >= 5 {
      var len := |body| + 4;
      assert data[..n][0] == 0x16;
      assert data[..n][3..] == PutU16(len) + data[5..n];
      GetPut16(len, data[5..n]);
    }
  }

  lemma BodyParsed(h: ClientHello, spare: nat)
    requires WfParts(h)
    ensures BodyOutcome(BodyWire(h), spare) == Parsed(Settle(Gather(h.version, h.ciphers, RawsOf(Exts(h)))))
  {
    hide PreludeOf, BodyWire, ExtsAt, RawsOf, Recorded, Gather, Bare, Settle;
    BodyAndMore(h, [], spare);
    assert BodyWire(h) + [] == BodyWire(h);
  }

  /** Bytes behind the extension block, inside the declared body, change nothing. */
  lemma BodyAndMore(h: ClientHello, rest: seq<byte>, spare: nat)
    requires WfParts(h) && (h.exts.None? ==> |rest| < 2)
    ensures BodyOutcome(BodyWire(h) + rest, spare) == Parsed(Settle(Gather(h.version, h.ciphers, RawsOf(Exts(h)))))
  {
    hide PreludeOf, BodyWire, ExtsAt, RawsOf, Recorded, Gather, Bare, Settle;
    PreludeInverse(h, rest, spare);
    BlockInverse(h, rest);
    var raws := RawsOf(Exts(h));
    BareIsEmpty(h.version, h.ciphers);
    RecordedIsGathered(h.version, h.ciphers, [], raws);
    assert [] + raws == raws;
  }

  /** Where the compression methods start, and end. */
  function CompressionAt(h: ClientHello): nat {
    37 + |h.sessionId| + 2 * |h.ciphers|
  }

  /** A body cut short: rejected by the first part that is missing, or parsed as a
      hello without extensions if the cut is behind the compression length. */
  lemma TruncatedBody(h: ClientHello, n: nat, spare: nat)
    requires WfParts(h) && n < CompressionAt(h) + |h.compression| + 3 && n <= |BodyWire(h)|
    ensures BodyOutcome(BodyWire(h)[..n], spare) ==
            if n < 34 then Failed(BodyTooShort)
            else if n == 34 then Failed(TruncatedSessionId)
            else if n < 37 + |h.sessionId| then Failed(TruncatedCipherLength)
            else if n < CompressionAt(h) then Failed(TruncatedCiphers)
            else if n == CompressionAt(h) then Failed(TruncatedCompression)
            else Parsed(Bare(h.version, h.ciphers))
  {
    hide PreludeOf, GetU16, GetU16s, PutU16, PutU16s, ExtBlock, Opening;
    var data, cut := BodyWire(h), BodyWire(h)[..n];
    if n <= 34 {
      ShortPrelude(cut, spare);
    } else {
      assert Opening(h) <= data && data[34] == Opening(h)[34];
      OpeningAt(h, data);
      assert cut[34] == data[34];
      CutPrelude(h, n, spare);
    }
  }

  lemma ShortPrelude(data: seq<byte>, spare: nat)
    requires |data| <= 34
    ensures PreludeOf(data, spare) == Cut(if |data| < 34 then BodyTooShort else TruncatedSessionId)
  {}

  lemma CutPrelude(h: ClientHello, n: nat, spare: nat)
    requires WfParts(h) && 34 < n < CompressionAt(h) + |h.compression| + 3 && n <= |BodyWire(h)|
    requires BodyWire(h)[34] == |h.sessionId|
    ensures BodyOutcome(BodyWire(h)[..n], spare) ==
            if n < 37 + |h.sessionId| then Failed(TruncatedCipherLength)
            else if n < CompressionAt(h) then Failed(TruncatedCiphers)
            else if n == CompressionAt(h) then Failed(TruncatedCompression)
            else Parsed(Bare(h.version, h.ciphers))
  {
    hide *;
    var cut, vec := BodyWire(h)[..n], 37 + |h.sessionId|;
    BodyParts(h);
    if n < vec {
      NoVector(cut, spare);
    } else {
      SameBytes(BodyWire(h), n, vec - 2, 2);
      FirstTwo(cut[vec - 2..], BodyWire(h)[vec - 2..]);
      if n <= CompressionAt(h) {
        NoCompression(cut, spare, 2 * |h.ciphers|);
      } else {
        SameBytes(BodyWire(h), n, vec, 2 * |h.ciphers|);
        SameBytes(BodyWire(h), n, 0, 2);
        FirstTwo(cut, BodyWire(h));
        GetPutU16s(h.ciphers);
        CutBehind(h, cut, spare);
      }
    }
  }

  /** The parts of a body, by offset. */
  lemma BodyParts(h: ClientHello)
    requires WfParts(h)
    ensures var data, vec := BodyWire(h), 37 + |h.sessionId|;
            && CompressionAt(h) == vec + 2 * |h.ciphers| < |data| && GetU16(data) == h.version
            && GetU16(data[vec - 2..]) == 2 * |h.ciphers| && data[vec..][..2 * |h.ciphers|] == PutU16s(h.ciphers)
            && data[CompressionAt(h)] == |h.compression|
  {
    hide GetU16, GetU16s, PutU16, PutU16s, ExtBlock, Opening;
    var data := BodyWire(h);
    var tail := [|h.compression|] + h.compression + ExtBlock(h);
    assert data == Opening(h) + (PutU16(2 * |h.ciphers|) + PutU16s(h.ciphers)) + tail;
    OpeningAt(h, data);
    CiphersAt(Opening(h), h.ciphers, tail);
  }

  lemma SameBytes(data: seq<byte>, n: nat, from: nat, k: nat)
    requires from + k <= n <= |data|
    ensures data[..n][from..][..k] == data[from..][..k]
    ensures from == 0 ==> data[..n][..k] == data[..k]
    ensures forall i :: 0 <= i < n ==> data[..n][i] == data[i]
  {}

  lemma NoVector(data: seq<byte>, spare: nat)
    requires 34 < |data| < 37 + data[34] as int
    ensures BodyOutcome(data, spare) == Failed(TruncatedCipherLength)
  {}

  lemma NoCompression(data: seq<byte>, spare: nat, n: nat)
    requires 34 < |data| && n % 2 == 0 && 37 + data[34] as int <= |data| <= 37 + data[34] as int + n
    requires GetU16(data[35 + data[34] as int..]) == n
    ensures BodyOutcome(data, spare) ==
            Failed(if |data| == 37 + data[34] as int + n then TruncatedCompression else TruncatedCiphers)
  {
    hide GetU16;
  }

  lemma CutBehind(h: ClientHello, cut: seq<byte>, spare: nat)
    requires WfParts(h) && CompressionAt(h) < |cut| < CompressionAt(h) + |h.compression| + 3
    requires cut[34] == |h.sessionId| && GetU16(cut) == h.version && cut[CompressionAt(h)] == |h.compression|
    requires GetU16(cut[35 + |h.sessionId|..]) == 2 * |h.ciphers|
    requires GetU16s(cut[37 + |h.sessionId|..][..2 * |h.ciphers|]) == h.ciphers
    ensures BodyOutcome(cut, spare) == Parsed(Bare(h.version, h.ciphers))
  {
    hide GetU16, GetU16s, Settle, ExtsAt, Recorded, PreludeOf, Bare, WfParts, RawsOf;
    assert 35 + cut[34] as int == 35 + |h.sessionId|;
    PreludeFrom(cut, spare, 2 * |h.ciphers|);
    assert PreludeOf(cut, spare) == Read(h.version, h.ciphers, CompressionAt(h) + 1 + |h.compression|);
    NoBlock(cut, CompressionAt(h) + 1 + |h.compression|);
    NothingRecorded(h.version, h.ciphers);
  }

  lemma FirstTwo(a: seq<byte>, b: seq<byte>)
    requires |a| >= 2 && |b| >= 2 && a[..2] == b[..2]
    ensures GetU16(a) == GetU16(b)
  {
    assert a[..2][0] == a[0] && a[..2][1] == a[1] && b[..2][0] == b[0] && b[..2][1] == b[1];
  }

  lemma NothingRecorded(version: uint16, ciphers: seq<uint16>)
    ensures Settle(Recorded(Bare(version, ciphers), [])) == Bare(version, ciphers)
  {}

  lemma BareIsEmpty(legacy: uint16, ciphers: seq<uint16>)
    ensures Bare(legacy, ciphers) == Gather(legacy, ciphers, [])
  {
  }

  lemma BodyReported(info: ClientHelloInfo, h: ClientHello)
    requires WfParts(h) && DistinctTypes(Exts(h))
    requires info == Settle(Gather(h.version, h.ciphers, RawsOf(Exts(h))))
    ensures Reports(info, h)
  {
    AllDelivered(info, h);
    AbsentFields(info, h);
    TypesReported(info, h);
  }

  lemma TypesReported(info: ClientHelloInfo, h: ClientHello)
    requires WfParts(h)
    requires info == Settle(Gather(h.version, h.ciphers, RawsOf(Exts(h))))
    ensures info.cipherSuites == h.ciphers && |info.extensions| == |Exts(h)|
    ensures forall i :: 0 <= i < |Exts(h)| ==> info.extensions[i] == TypeOf(Exts(h)[i])
    ensures VersionSettled(info.tlsVersion, h.version, info.supportedVersions)
  {
    SettledVersion(h.version, info.supportedVersions);
  }

  lemma AllDelivered(info: ClientHelloInfo, h: ClientHello)
    requires WfParts(h) && DistinctTypes(Exts(h))
    requires info == Settle(Gather(h.version, h.ciphers, RawsOf(Exts(h))))
    ensures forall e :: e in Exts(h) ==> Delivered(info, e)
  {
    forall e | e in Exts(h) ensures Delivered(info, e) {
      DeliveredBy(info, h, e);
    }
  }

  // ------------------------------------------------------------------
  // Any input
  // ------------------------------------------------------------------

  /** The headers of any input: the length of the hello, or why there is none. */
  lemma FramingExact(data: seq<byte>)
    ensures FramingOf(data) == NoHello(RecordTooShort) <==> |data| < 5
    ensures FramingOf(data) == NoHello(NotHandshake) <==> |data| >= 5 && data[0] != 22
    ensures |data| >= 5 && data[0] == 22 ==>
              var n, f := 256 * data[3] as int + data[4], FramingOf(data);
              && (f == NoHello(IncompleteRecord) <==> |data| < 5 + n)
              && (|data| >= 5 + n ==>
                    && (f == NoHello(HandshakeTooShort) <==> n < 4)
                    && (f == NoHello(NotClientHello) <==> n >= 4 && data[5] != 1)
                    && (n >= 4 && data[5] == 1 ==>
                          var k := 65536 * data[6] as int + 256 * data[7] as int + data[8];
                          f == if 4 + k <= n then Hello(k) else NoHello(IncompleteHello)))
  {
    if |data| >= 5 {
      BigEndian(data[3], data[4], 0, 0, data[5..]);
      assert data[3..] == [data[3], data[4]] + data[5..];
    }
    if |data| >= 9 {
      BigEndian(data[6], data[7], data[8], 0, data[9..]);
      assert data[6..] == [data[6], data[7], data[8]] + data[9..];
    }
  }

  /** A list of 16-bit values, cut by its declared length or by the end of the body. */
  lemma U16ListAt(data: seq<byte>)
    requires |data| >= 2
    ensures var n, vs := Min(256 * data[0] as int + data[1], |data| - 2), U16ListOf(data);
            && |vs| == n / 2
            && forall i: nat :: i < |vs| ==> vs[i] == 256 * data[2 + 2 * i] as int + data[3 + 2 * i]
  {
    BigEndian(data[0], data[1], 0, 0, data[2..]);
    assert data == [data[0], data[1]] + data[2..];
    var n := Min(GetU16(data), |data| - 2);
    var list := data[2..][..n];
    forall i: nat | i < n / 2 ensures GetU16s(list)[i] == 256 * data[2 + 2 * i] as int + data[3 + 2 * i] {
      GetU16sAt(list, i);
      assert list[2 * i] == data[2 + 2 * i] && list[2 * i + 1] == data[3 + 2 * i];
    }
  }

  lemma VersionsAt(data: seq<byte>)
    requires |data| >= 1
    ensures var n, vs := Min(data[0], |data| - 1), VersionsOf(data);
            && |vs| == n / 2
            && forall i: nat :: i < |vs| ==> vs[i] == 256 * data[1 + 2 * i] as int + data[2 + 2 * i]
  {
    var n := Min(data[0], |data| - 1);
    var list := data[1..][..n];
    forall i: nat | i < n / 2 ensures GetU16s(list)[i] == 256 * data[1 + 2 * i] as int + data[2 + 2 * i] {
      GetU16sAt(list, i);
      assert list[2 * i] == data[1 + 2 * i] && list[2 * i + 1] == data[2 + 2 * i];
    }
  }

  /** Point formats and server name on any body: what is cut short and what is dropped. */
  lemma BytesAt(data: seq<byte>)
    ensures data != [] ==> PointFormatsOf(data) == data[1..1 + Min(data[0], |data| - 1)]
    ensures |data| >= 5 && |data| >= 5 + 256 * data[3] as int + data[4] ==>
              ServerNameOf(data) == data[5..5 + 256 * data[3] as int + data[4]]
    ensures |data| < 5 || |data| < 5 + 256 * data[3] as int + data[4] ==> ServerNameOf(data) == []
    ensures data == [] ==> PointFormatsOf(data) == [] && VersionsOf(data) == []
    ensures |data| < 2 ==> U16ListOf(data) == [] && AlpnOf(data) == []
  {
    if |data| >= 5 {
      BigEndian(data[3], data[4], 0, 0, data[5..]);
      assert data[3..] == [data[3], data[4]] + data[5..];
    }
  }

  /** The names found in any list body: a name counts if it starts within the
      declared length and fits in the data; the first that does not fit ends the list. */
  ghost predicate NamesFound(s: seq<byte>, budget: int, ps: seq<seq<byte>>) {
    && ShortNames(ps) && NamesWire(ps) <= s
    && (ps != [] ==> |NamesWire(ps[..|ps| - 1])| < budget)
    && var rest := s[|NamesWire(ps)|..];
    (|NamesWire(ps)| >= budget || rest == [] || 1 + rest[0] > |rest|)
  }

  lemma {:induction false} NamesExact(s: seq<byte>, budget: int, ps: seq<seq<byte>>)
    ensures ps == NamesOf(s, budget) <==> NamesFound(s, budget, ps)
    decreases |s|
  {
    if ps == NamesOf(s, budget) { NamesSound(s, budget); }
    if NamesFound(s, budget, ps) { NamesComplete(s, budget, ps); }
  }

  lemma {:induction false} NamesSound(s: seq<byte>, budget: int)
    ensures NamesFound(s, budget, NamesOf(s, budget))
    decreases |s|
  {
    if budget <= 0 || s == [] || 1 + s[0] > |s| {
      assert s[0..] == s;
    } else {
      hide NamesFound;
      var p, rest := s[1..1 + s[0]], s[1 + s[0]..];
      NamesSound(rest, budget - 1 - s[0]);
      FirstName(p, NamesOf(rest, budget - 1 - s[0]), rest, budget);
      assert s == [|p|] + p + rest;
    }
  }

  /** Putting one name in front of what is found. */
  lemma FirstName(p: seq<byte>, later: seq<seq<byte>>, rest: seq<byte>, budget: int)
    requires |p| < 0x100 && budget > 0
    ensures NamesFound([|p|] + p + rest, budget, [p] + later) <==> NamesFound(rest, budget - 1 - |p|, later)
  {
    var s, ps := [|p|] + p + rest, [p] + later;
    assert ps[1..] == later && forall x :: x in ps <==> x == p || x in later;
    if ShortNames(later) {
      assert NamesWire(ps) == [|p|] + p + NamesWire(later);
      FrontWire(p, later);
      if NamesWire(later) <= rest || NamesWire(ps) <= s {
        assert s[1 + |p|..] == rest;
        assert NamesWire(ps)[1 + |p|..] == NamesWire(later);
        assert s[|NamesWire(ps)|..] == rest[|NamesWire(later)|..];
      }
    }
  }

  lemma FrontWire(p: seq<byte>, later: seq<seq<byte>>)
    requires ShortNames([p] + later)
    ensures later == [] ==> NamesWire(([p] + later)[..|later|]) == []
    ensures later != [] ==>
              && ShortNames(later[..|later| - 1])
              && |NamesWire(([p] + later)[..|later|])| == 1 + |p| + |NamesWire(later[..|later| - 1])|
  {
    if later != [] {
      assert ([p] + later)[..|later|] == [p] + later[..|later| - 1];
      assert ([p] + later[..|later| - 1])[1..] == later[..|later| - 1];
    }
  }

  lemma {:induction false} NamesComplete(s: seq<byte>, budget: int, ps: seq<seq<byte>>)
    requires NamesFound(s, budget, ps)
    ensures NamesOf(s, budget) == ps
    decreases |ps|
  {
    if ps == [] {
      assert s[0..] == s;
    } else {
      var p, later := ps[0], ps[1..];
      var rest := NamesTail(s, budget, ps);
      assert ps == [p] + later;
      hide NamesFound, NamesOf, NamesWire, ShortNames;
      FirstName(p, later, rest, budget);
      NamesComplete(rest, budget - 1 - |p|, later);
      NamesStep(p, rest, budget);
    }
  }

  lemma NamesStep(p: seq<byte>, rest: seq<byte>, budget: int)
    requires |p| < 0x100 && budget > 0
    ensures NamesOf([|p|] + p + rest, budget) == [p] + NamesOf(rest, budget - 1 - |p|)
  {
    var s := [|p|] + p + rest;
    assert s[1..1 + |p|] == p && s[1 + |p|..] == rest;
  }

  lemma NamesTail(s: seq<byte>, budget: int, ps: seq<seq<byte>>) returns (rest: seq<byte>)
    requires NamesFound(s, budget, ps) && ps != []
    ensures budget > 0 && |ps[0]| < 0x100 && s == [|ps[0]|] + ps[0] + rest
  {
    var head := [|ps[0]|] + ps[0];
    assert NamesWire(ps) == head + NamesWire(ps[1..]);
    assert head == s[..|head|];
    rest := s[|head|..];
  }

  ghost function RawWire(e: RawExt): seq<byte> {
    PutU16(e.typ) + PutU16(e.len) + e.body
  }

  ghost function RawsWire(es: seq<RawExt>): seq<byte> {
    if es == [] then [] else RawWire(es[0]) + RawsWire(es[1..])
  }

  lemma RawWireAt(data: seq<byte>, pos: nat)
    requires pos + 4 <= |data|
    ensures RawWire(ExtAt(data, pos)) == data[pos..pos + 4 + |ExtAt(data, pos).body|]
    ensures |ExtAt(data, pos).body| == Min(ExtAt(data, pos).len, |data| - pos - 4)
  {
    PutGet16(data[pos..]);
    PutGet16(data[pos + 2..]);
  }

  /** Whatever the bytes, the extensions found are laid end to end from `pos`, so
      their bodies are in order, disjoint and inside the data; only the last can
      be cut short, and only by the end of the data; fewer than four bytes of
      the block are left over. */
  lemma {:induction false} ExtsExact(data: seq<byte>, pos: nat, end: nat)
    requires pos <= end <= |data|
    ensures var es := ExtsWithin(data, pos, end);
            && RawsWire(es) <= data[pos..]
            && (forall i :: 0 <= i < |es| - 1 ==> |es[i].body| == es[i].len)
            && (es != [] && |es[|es| - 1].body| < es[|es| - 1].len ==> RawsWire(es) == data[pos..])
            && end - pos < |RawsWire(es)| + 4
    decreases end - pos
  {
    hide ExtAt, RawWire;
    if pos + 4 <= end {
      var es, e := ExtsWithin(data, pos, end), ExtAt(data, pos);
      var next := pos + 4 + e.len;
      RawWireAt(data, pos);
      if next <= end {
        ExtsExact(data, next, end);
        assert es[1..] == ExtsWithin(data, next, end);
        assert data[pos..] == data[pos..next] + data[next..];
      } else {
        assert es == [e];
        assert RawsWire(es) == RawWire(e);
      }
    }
  }

  /** And each of them has its header inside the block. */
  lemma {:induction false} HeadersInside(data: seq<byte>, pos: nat, end: nat)
    requires pos <= end <= |data|
    ensures var es := ExtsWithin(data, pos, end);
            es != [] ==> |RawsWire(es[..|es| - 1])| + 4 <= end - pos
    decreases end - pos
  {
    hide ExtAt, RawWire;
    if pos + 4 <= end {
      var es, e := ExtsWithin(data, pos, end), ExtAt(data, pos);
      var next := pos + 4 + e.len;
      var later := ExtsWithin(data, next, end);
      assert es == [e] + later;
      if next <= end && later != [] {
        RawWireAt(data, pos);
        HeadersInside(data, next, end);
        assert es[..|es| - 1] == [e] + later[..|later| - 1];
        assert ([e] + later[..|later| - 1])[1..] == later[..|later| - 1];
      } else {
        assert es[..|es| - 1] == [];
      }
    }
  }

  /** For every input that parses, each field is what the last extension of its
      type says, and the extension list is every type in order. */
  lemma ParsedMeans(data: seq<byte>, spare: nat)
    requires BodyOutcome(data, spare).Parsed?
    ensures var p := PreludeOf(data, spare);
            p.Read? && BodyOutcome(data, spare).info == Settle(Gather(p.version, p.ciphers, ExtsAt(data, p.next)))
  {
    var p := PreludeOf(data, spare);
    var exts := ExtsAt(data, p.next);
    RecordedIsGathered(p.version, p.ciphers, [], exts);
    assert [] + exts == exts;
  }

  /** The declared length of the cipher-suite vector, when the body reaches it. */
  function CipherLength(data: seq<byte>): Option<uint16> {
    if |data| < 35 || 37 + data[34] as int > |data| then None
    else Some(GetU16(data[35 + data[34] as int..]))
  }

  /** The parser reads past its slice exactly when a cipher vector of odd length
      ends the body and the slice has no spare capacity; an odd vector anywhere
      else yields one suite made of its last byte and the compression length. */
  lemma OddCipherVector(data: seq<byte>, spare: nat)
    ensures BodyOutcome(data, spare).Panicked? <==>
            && spare == 0 && CipherLength(data).Some? && CipherLength(data).value % 2 == 1
            && |data| == 37 + data[34] as int + CipherLength(data).value
    ensures BodyOutcome(data, spare).Parsed? ==>
              var n, suites := CipherLength(data).value, BodyOutcome(data, spare).info.cipherSuites;
              var vec := 37 + data[34] as int;
              if n % 2 == 0 then suites == GetU16s(data[vec..vec + n])
              else suites == GetU16s(data[vec..vec + n - 1]) + [GetU16(data[vec + n - 1..])]
  {
    hide PreludeOf, Gather, Recorded, Settle, CipherLength, Bare, ExtsAt, GetU16, GetU16s;
    OddVectorPrelude(data, spare);
    if BodyOutcome(data, spare).Parsed? {
      var vec, n := 37 + data[34] as int, CipherLength(data).value;
      ParsedMeans(data, spare);
      SuitesGathered(PreludeOf(data, spare), ExtsAt(data, PreludeOf(data, spare).next));
      OddTail(data, vec, n);
    }
  }

  /** A body that ends in a cipher vector of one byte. */
  function OddBody(): (r: seq<byte>)
    ensures |r| == 38
  {
    seq(35, i => 0) + PutU16(1) + [0x13]
  }

  /** Sent in a record with nothing behind it, it makes the parser panic; one byte
      behind it and it is rejected instead. */
  lemma OddCipherExample(recordVersion: uint16)
    ensures var data := HeaderWire(recordVersion, 38) + OddBody();
            HelloOutcome(data, 0) == Panicked && HelloOutcome(data, 1) == Failed(TruncatedCompression)
  {
    var body := OddBody();
    HeaderInverse(recordVersion, 38, body);
    assert (HeaderWire(recordVersion, 38) + body)[9..][..38] == body;
    assert body[35..] == PutU16(1) + [0x13] && body[34] == 0;
    GetPut16(1, [0x13]);
    hide GetU16, PutU16, FramingOf, HeaderWire, OddBody;
    assert PreludeOf(body, 0) == Overrun && PreludeOf(body, 1) == Cut(TruncatedCompression);
  }

  lemma SuitesGathered(p: Prelude, exts: seq<RawExt>)
    requires p.Read?
    ensures Settle(Gather(p.version, p.ciphers, exts)).cipherSuites == p.ciphers
  {}

  lemma OddVectorPrelude(data: seq<byte>, spare: nat)
    ensures PreludeOf(data, spare).Overrun? <==>
            && spare == 0 && CipherLength(data).Some? && CipherLength(data).value % 2 == 1
            && |data| == 37 + data[34] as int + CipherLength(data).value
    ensures PreludeOf(data, spare).Read? ==>
              && |data| >= 37 && CipherLength(data).Some?
              && var vec, n := 37 + data[34] as int, CipherLength(data).value;
              && vec + n + n % 2 <= |data|
              && PreludeOf(data, spare).ciphers == GetU16s(data[vec..][..n + n % 2])
  {}

  lemma OddTail(data: seq<byte>, vec: nat, n: nat)
    requires vec + n + n % 2 <= |data|
    ensures GetU16s(data[vec..][..n + n % 2]) ==
            if n % 2 == 0 then GetU16s(data[vec..vec + n])
            else GetU16s(data[vec..vec + n - 1]) + [GetU16(data[vec + n - 1..])]
  {
    hide GetU16, GetU16s;
    var v := data[vec..];
    if n % 2 == 0 {
      assert v[..n] == data[vec..vec + n];
    } else {
      GetU16sSnoc(v, n - 1);
      assert v[..n - 1] == data[vec..vec + n - 1];
      assert v[n - 1..] == data[vec + n - 1..];
    }
  }
}
