/**
 From the wire to the fingerprint: FullFingerprintFromRaw and the two Compute
 functions of mango-waf/fingerprint/tls_parser.go, on encoded ClientHellos.
 */
module WireFingerprint {
  import opened Bytes
  import opened Fingerprint
  import opened TlsEncoding
  import opened TlsParser
  import opened Wrappers

  /** A Go string holding the given bytes. */
  function Latin(s: seq<byte>): (r: string)
    ensures |r| == |s|
  {
    seq(|s|, i requires 0 <= i < |s| => s[i] as char)
  }

  function Ja3Seen(info: ClientHelloInfo): Ja3Input {
    Ja3Input(info.tlsVersion, info.cipherSuites, info.extensions, info.ellipticCurves, info.ecPointFormats)
  }

  function Ja4Seen(info: ClientHelloInfo): Ja4Input {
    Ja4Input("tcp", info.tlsVersion, Latin(info.serverName), info.cipherSuites, info.extensions,
             info.signatureAlgs, if info.alpn != [] then Latin(info.alpn[0]) else "")
  }

  datatype FullFingerprint = FullFingerprint(ja3: Ja3Result, ja4: Ja4Result, serverName: seq<byte>)

  datatype FullOutcome =
    | Fingerprinted(fp: FullFingerprint)
    | Rejected(error: ParseError)
    | Crashed

  function FullOf(data: seq<byte>, spare: nat, md5: string -> string, known: map<string, BrowserInfo>): FullOutcome {
    match HelloOutcome(data, spare)
    case Failed(error) => Rejected(error)
    case Panicked => Crashed
    case Parsed(info) =>
      match Ja4Of(Ja4Seen(info), md5)
      case None => Crashed
      case Some(ja4) => Fingerprinted(FullFingerprint(Ja3Of(Ja3Seen(info), md5, known), ja4, info.serverName))
  }

  method FullFingerprintFromRaw(mem: seq<byte>, len: nat, md5: string -> string, known: map<string, BrowserInfo>)
    returns (r: FullOutcome)
    requires len <= |mem|
    ensures r == FullOf(mem[..len], |mem| - len, md5, known)
  {
    var parsed := ParseClientHello(mem, len);
    match parsed {
      case Failed(error) => r := Rejected(error);
      case Panicked => r := Crashed;
      case Parsed(info) =>
        var ja3 := JA3(Ja3Input(info.tlsVersion, info.cipherSuites, info.extensions,
                                info.ellipticCurves, info.ecPointFormats), md5, known);
        var alpn := "";
        if |info.alpn| > 0 { alpn := Latin(info.alpn[0]); }
        var ja4 := JA4(Ja4Input("tcp", info.tlsVersion, Latin(info.serverName), info.cipherSuites,
                                info.extensions, info.signatureAlgs, alpn), md5);
        if ja4.None? { return Crashed; }
        r := Fingerprinted(FullFingerprint(ja3, ja4.value, info.serverName));
    }
  }

  /** Two hellos that a client choosing different GREASE would send: the same
      lists once GREASE values, GREASE groups, GREASE versions and GREASE
      extensions are dropped, and the same recognised extensions otherwise. */
  ghost predicate SameButGrease(g: ClientHello, h: ClientHello) {
    && g.version == h.version
    && Filter(g.ciphers) == Filter(h.ciphers)
    && Filter(TypesOf(g)) == Filter(TypesOf(h))
    && Filter(GroupsOf(g)) == Filter(GroupsOf(h))
    && Filter(OfferedBy(g)) == Filter(OfferedBy(h))
    && NameIn(g) == NameIn(h) && FormatsIn(g) == FormatsIn(h) && AlpnIn(g) == AlpnIn(h)
  }

  function TypesOf(h: ClientHello): (ts: seq<uint16>)
    ensures |ts| == |Exts(h)| && forall i :: 0 <= i < |ts| ==> ts[i] == TypeOf(Exts(h)[i])
  {
    seq(|Exts(h)|, i requires 0 <= i < |Exts(h)| => TypeOf(Exts(h)[i]))
  }

  function FirstOf(es: seq<Extension>, typ: uint16): Option<Extension> {
    if es == [] then None
    else if TypeOf(es[0]) == typ && !es[0].Other? then Some(es[0])
    else FirstOf(es[1..], typ)
  }

  function GroupsOf(h: ClientHello): seq<uint16> {
    match FirstOf(Exts(h), 10)
    case Some(SupportedGroups(groups)) => groups
    case _ => []
  }

  function OfferedBy(h: ClientHello): seq<uint16> {
    match FirstOf(Exts(h), 43)
    case Some(SupportedVersions(versions)) => versions
    case _ => []
  }

  function NameIn(h: ClientHello): seq<byte> {
    match FirstOf(Exts(h), 0)
    case Some(ServerName(name)) => name
    case _ => []
  }

  function FormatsIn(h: ClientHello): seq<byte> {
    match FirstOf(Exts(h), 11)
    case Some(PointFormats(formats)) => formats
    case _ => []
  }

  function AlpnIn(h: ClientHello): seq<seq<byte>> {
    match FirstOf(Exts(h), 16)
    case Some(Alpn(protos)) => protos
    case _ => []
  }

  lemma {:induction false} FirstOfFinds(es: seq<Extension>, typ: uint16)
    requires WfExts(es) && Recognised(typ)
    ensures match FirstOf(es, typ)
            case Some(e) => e in es && TypeOf(e) == typ && !e.Other?
            case None => Lacks(es, typ)
    decreases |es|
  {
    if es != [] {
      assert WfExt(es[0]);
      FirstOfFinds(es[1..], typ);
    }
  }

  /** The parsed fields, one by one, in terms of the hello sent. */
  lemma FieldsReported(info: ClientHelloInfo, h: ClientHello)
    requires Wf(h) && Reports(info, h)
    ensures info.extensions == TypesOf(h)
    ensures info.ellipticCurves == GroupsOf(h) && info.supportedVersions == OfferedBy(h)
    ensures info.serverName == NameIn(h) && info.ecPointFormats == FormatsIn(h) && info.alpn == AlpnIn(h)
  {
    var es := Exts(h);
    FirstOfFinds(es, 10);
    FirstOfFinds(es, 43);
    FirstOfFinds(es, 0);
    FirstOfFinds(es, 11);
    FirstOfFinds(es, 16);
  }

  /** The version used depends on the offered versions only through their non-GREASE part. */
  lemma SettledByFiltered(u: uint16, v: uint16, legacy: uint16, a: seq<uint16>, b: seq<uint16>)
    requires VersionSettled(u, legacy, a) && VersionSettled(v, legacy, b)
    requires Filter(a) == Filter(b)
    ensures u == v
  {
    assert forall x: uint16 :: (x in a && !IsGrease(x)) <==> x in Filter(a);
    assert forall x: uint16 :: (x in b && !IsGrease(x)) <==> x in Filter(b);
  }

  /** However a client re-rolls its GREASE, and whatever trails its record, the
      bytes it sends get the same JA3 and JA4 results. */
  lemma GreaseInvisible(g: ClientHello, h: ClientHello, gv: uint16, hv: uint16, grest: seq<byte>, hrest: seq<byte>,
                        spare: nat, md5: string -> string, known: map<string, BrowserInfo>)
    requires Wf(g) && Wf(h) && SameButGrease(g, h)
    ensures FullOf(RecordWire(gv, g) + grest, spare, md5, known) == FullOf(RecordWire(hv, h) + hrest, spare, md5, known)
  {
    RoundTrip(gv, g, grest, spare);
    RoundTrip(hv, h, hrest, spare);
    var a := HelloOutcome(RecordWire(gv, g) + grest, spare).info;
    var b := HelloOutcome(RecordWire(hv, h) + hrest, spare).info;
    SeenAlike(a, b, g, h);
    Ja3Exact(Ja3Seen(a), Ja3Seen(b), md5, known);
    Ja4Canonical(Ja4Seen(a), Ja4Seen(b), md5);
  }

  function PlainHello(): ClientHello {
    ClientHello(0x0303, seq(32, i => 0), [], [0x1301], [0], Some([SupportedVersions([0x0304])]))
  }

  function GreasedHello(): ClientHello {
    PlainHello().(ciphers := [0x8a8a, 0x1301],
                  exts := Some([Other(0x2a2a, []), SupportedVersions([0x3a3a, 0x0304])]))
  }

  /** The fingerprint of the bytes of a hello is the fingerprint of its own lists. */
  lemma HelloFingerprint(h: ClientHello, rv: uint16, rest: seq<byte>, spare: nat,
                         md5: string -> string, known: map<string, BrowserInfo>) returns (used: uint16)
    requires Wf(h) && (AlpnIn(h) != [] ==> |AlpnIn(h)[0]| != 1)
    ensures VersionSettled(used, h.version, OfferedBy(h))
    ensures var ja3 := Ja3Of(Ja3Input(used, h.ciphers, TypesOf(h), GroupsOf(h), FormatsIn(h)), md5, known);
            var ja4 := Ja4Of(Ja4Input("tcp", used, Latin(NameIn(h)), h.ciphers, TypesOf(h), [],
                                      if AlpnIn(h) != [] then Latin(AlpnIn(h)[0]) else ""), md5);
            && ja4.Some?
            && FullOf(RecordWire(rv, h) + rest, spare, md5, known) ==
               Fingerprinted(FullFingerprint(ja3, ja4.value, NameIn(h)))
  {
    hide VersionSettled, RecordWire, Wf, Ja3Of, Filter, SortedText, TruncatedHash, FirstOf;
    RoundTrip(rv, h, rest, spare);
    var info := HelloOutcome(RecordWire(rv, h) + rest, spare).info;
    FieldsReported(info, h);
    used := info.tlsVersion;
    IgnoresSigAlgs(Ja4Seen(info), [], md5);
  }

  lemma IgnoresSigAlgs(x: Ja4Input, sigAlgs: seq<uint16>, md5: string -> string)
    ensures Ja4Of(x.(sigAlgs := sigAlgs), md5) == Ja4Of(x, md5)
  {}

  /** Two such hellos: a suite, an extension and a version of GREASE apart. */
  lemma GreaseExample()
    ensures Wf(PlainHello()) && Wf(GreasedHello()) && SameButGrease(GreasedHello(), PlainHello())
  {
    ExamplesAreSmall();
    hide Wf, Filter, IsGrease;
    var g, h := GreasedHello(), PlainHello();
    assert Exts(g)[1..] == [SupportedVersions([0x3a3a, 0x0304])] && Exts(h)[1..] == [];
    assert TypesOf(g) == [0x2a2a, 43] && TypesOf(h) == [43];
    LeadingGrease(0x2a2a, 43);
    LeadingGrease(0x8a8a, 0x1301);
    LeadingGrease(0x3a3a, 0x0304);
  }

  lemma LeadingGrease(g: uint16, v: uint16)
    requires IsGrease(g)
    ensures Filter([g, v]) == Filter([v])
  {
    GreaseInserted([], [g], [v]);
    assert [] + [g] + [v] == [g, v] && [] + [v] == [v];
  }

  lemma VersionsSize(e: Extension)
    requires e.SupportedVersions? && WfExt(e)
    ensures |BodyOf(e)| == 1 + 2 * |e.versions|
  {}

  lemma ExamplesAreSmall()
    ensures Wf(PlainHello()) && Wf(GreasedHello())
  {
    var a, b, c := SupportedVersions([0x0304]), Other(0x2a2a, []), SupportedVersions([0x3a3a, 0x0304]);
    assert [a][1..] == [] && [b, c][1..] == [c] && [c][1..] == [];
    assert WfExt(a) && WfExt(b) && WfExt(c);
    VersionsSize(a);
    VersionsSize(c);
    assert |BodyOf(b)| == 0;
    hide BodyOf;
    assert |ExtWire(a)| == 7 && |ExtWire(b)| == 4 && |ExtWire(c)| == 9;
    assert WfExts([a]) && WfExts([b, c]) && WfExts([c]);
    hide ExtWire, WfExt;
    WireSize(a, []);
    WireSize(c, []);
    WireSize(b, [c]);
    assert [a] + [] == [a] && [c] + [] == [c] && [b] + [c] == [b, c];
  }

  lemma WireSize(e: Extension, es: seq<Extension>)
    requires WfExts([e] + es) && WfExts(es)
    ensures |ExtsWire([e] + es)| == |ExtWire(e)| + |ExtsWire(es)|
    ensures es == [] ==> ExtsWire(es) == []
  {
    assert ([e] + es)[1..] == es;
  }

  lemma SeenAlike(a: ClientHelloInfo, b: ClientHelloInfo, g: ClientHello, h: ClientHello)
    requires Wf(g) && Wf(h) && SameButGrease(g, h) && Reports(a, g) && Reports(b, h)
    ensures Fingerprint.Ja3Canonical(Ja3Seen(a)) == Fingerprint.Ja3Canonical(Ja3Seen(b))
    ensures Ja4Alike(Ja4Seen(a), Ja4Seen(b))
    ensures a.serverName == b.serverName
  {
    FieldsReported(a, g);
    FieldsReported(b, h);
    SettledByFiltered(a.tlsVersion, b.tlsVersion, g.version, a.supportedVersions, b.supportedVersions);
  }

  /** The fingerprint of a well-formed hello fails only on a one-byte first ALPN name. */
  lemma CrashesOnShortAlpn(h: ClientHello, rv: uint16, rest: seq<byte>, spare: nat,
                           md5: string -> string, known: map<string, BrowserInfo>)
    requires Wf(h)
    ensures var r := FullOf(RecordWire(rv, h) + rest, spare, md5, known);
            && !r.Rejected?
            && (r.Crashed? <==> AlpnIn(h) != [] && |AlpnIn(h)[0]| == 1)
  {
    RoundTrip(rv, h, rest, spare);
    FieldsReported(HelloOutcome(RecordWire(rv, h) + rest, spare).info, h);
  }

  function ShortAlpnHello(): ClientHello {
    PlainHello().(exts := Some([Alpn([[0x68]])]))
  }

  /** A well-formed hello that offers the protocol "h" makes the fingerprint panic. */
  lemma ShortAlpnExample(rv: uint16, rest: seq<byte>, spare: nat, md5: string -> string, known: map<string, BrowserInfo>)
    ensures Wf(ShortAlpnHello())
    ensures FullOf(RecordWire(rv, ShortAlpnHello()) + rest, spare, md5, known) == Crashed
  {
    var h := ShortAlpnHello();
    ShortAlpnIsSmall();
    assert AlpnIn(h) == [[0x68]];
    hide *;
    CrashesOnShortAlpn(h, rv, rest, spare, md5, known);
  }

  lemma ShortAlpnIsSmall()
    ensures Wf(ShortAlpnHello())
  {
    var e := Alpn([[0x68]]);
    assert [[0x68 as byte]][1..] == [] && [e][1..] == [];
    assert |NamesWire([[0x68]])| == 2;
    assert |ExtWire(e)| == 8 && WfExts([e]);
    hide ExtWire, BodyOf, WfExt;
    assert |ExtsWire([e])| == 8;
  }
}
