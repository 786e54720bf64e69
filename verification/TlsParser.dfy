/**
 The TLS ClientHello parser of mango-waf/fingerprint/tls_parser.go.

 The methods walk the message by offsets, as the Go code does. They are proved
 equal to functions that consume the message from the front, and those
 functions are proved to invert the encoding of section 4.1.2 of RFC 8446.
 */
module TlsParser {
  import opened Bytes
  import opened Wrappers

  datatype ParseError =
    | RecordTooShort
    | NotHandshake
    | IncompleteRecord
    | HandshakeTooShort
    | NotClientHello
    | IncompleteHello
    | BodyTooShort
    | TruncatedSessionId
    | TruncatedCipherLength
    | TruncatedCiphers
    | TruncatedCompression

  datatype ClientHelloInfo = ClientHelloInfo(
    tlsVersion: uint16,
    cipherSuites: seq<uint16>,
    extensions: seq<uint16>,
    ellipticCurves: seq<uint16>,
    ecPointFormats: seq<byte>,
    signatureAlgs: seq<uint16>,
    alpn: seq<seq<byte>>,
    serverName: seq<byte>,
    supportedVersions: seq<uint16>)

  /** `Panicked` is Go's slice-bounds panic; nil and empty slices are one value. */
  datatype Outcome =
    | Parsed(info: ClientHelloInfo)
    | Failed(error: ParseError)
    | Panicked

  const EXT_SERVER_NAME: uint16 := 0x0000
  const EXT_SUPPORTED_GROUPS: uint16 := 0x000a
  const EXT_POINT_FORMATS: uint16 := 0x000b
  const EXT_SIGNATURE_ALGS: uint16 := 0x000d
  const EXT_ALPN: uint16 := 0x0010
  const EXT_SUPPORTED_VERSIONS: uint16 := 0x002b

  function Min(a: int, b: int): int { if a < b then a else b }

  // ------------------------------------------------------------------
  // GREASE
  // ------------------------------------------------------------------

  /** `(val & 0x0f0f) == 0x0a0a`: the low nibble of each byte is 0xa. */
  predicate IsGrease(v: uint16) {
    v % 0x10 == 0xa && v / 0x100 % 0x10 == 0xa
  }

  /** The sixteen values section 2 of RFC 8701 reserves. */
  predicate Rfc8701(v: uint16) {
    v / 0x100 == v % 0x100 && v % 0x10 == 0xa
  }

  lemma Nibbles(v: uint16)
    ensures var a, b, c, d := v / 0x1000, v / 0x100 % 0x10, v / 0x10 % 0x10, v % 0x10;
            v == 0x1000 * a + 0x100 * b + 0x10 * c + d && v / 0x100 == 0x10 * a + b && v % 0x100 == 0x10 * c + d
  {
    HighNibble(v);
    LowNibbles(v);
  }

  lemma HighNibble(v: uint16)
    ensures v / 0x1000 == v / 0x100 / 0x10
  {}

  lemma LowNibbles(v: uint16)
    ensures v / 0x10 % 0x10 == v % 0x100 / 0x10 && v % 0x10 == v % 0x100 % 0x10
  {
    var hi, lo := v / 0x100, v % 0x100;
    var c, d := lo / 0x10, lo % 0x10;
    assert v == 0x10 * (0x10 * hi + c) + d;
    assert v / 0x10 == 0x10 * hi + c;
  }

  /** The code's test accepts exactly the values 0xHaLa; RFC 8701 reserves those with H == L. */
  lemma GreaseSuperset(v: uint16)
    ensures IsGrease(v) <==> v == 0x1000 * (v / 0x1000) + 0xa00 + 0x10 * (v / 0x10 % 0x10) + 0xa
    ensures Rfc8701(v) <==> IsGrease(v) && v / 0x1000 == v / 0x10 % 0x10
  {
    Nibbles(v);
    var a, b, c, d := v / 0x1000, v / 0x100 % 0x10, v / 0x10 % 0x10, v % 0x10;
    assert IsGrease(v) <==> b == 0xa && d == 0xa;
    assert Rfc8701(v) <==> 0x10 * a + b == 0x10 * c + d && d == 0xa;
  }

  // ------------------------------------------------------------------
  // Extension bodies, read from the front
  // ------------------------------------------------------------------

  function ServerNameOf(data: seq<byte>): seq<byte> {
    if |data| < 5 then []
    else
      var n: int := GetU16(data[3..]);
      if |data| < 5 + n then [] else data[5..5 + n]
  }

  function U16ListOf(data: seq<byte>): seq<uint16> {
    if |data| < 2 then []
    else GetU16s(data[2..][..Min(GetU16(data), |data| - 2)])
  }

  function PointFormatsOf(data: seq<byte>): seq<byte> {
    if |data| < 1 then [] else data[1..][..Min(data[0], |data| - 1)]
  }

  function VersionsOf(data: seq<byte>): seq<uint16> {
    if |data| < 1 then [] else GetU16s(data[1..][..Min(data[0], |data| - 1)])
  }

  /** Length-prefixed names starting within the next `budget` bytes. */
  function NamesOf(s: seq<byte>, budget: int): seq<seq<byte>> {
    if budget <= 0 || s == [] || 1 + s[0] > |s| then []
    else [s[1..1 + s[0]]] + NamesOf(s[1 + s[0]..], budget - 1 - s[0])
  }

  function AlpnOf(data: seq<byte>): seq<seq<byte>> {
    if |data| < 2 then [] else NamesOf(data[2..], GetU16(data))
  }

  // ------------------------------------------------------------------
  // The whole message, read from the front
  // ------------------------------------------------------------------

  /** One extension as found: declared length and the bytes handed to its sub-parser. */
  datatype RawExt = RawExt(typ: uint16, len: uint16, body: seq<byte>)

  /** The extension at `pos`, its body cut short by the end of the data. */
  function ExtAt(data: seq<byte>, pos: nat): RawExt
    requires pos + 4 <= |data|
  {
    var len: int := GetU16(data[pos + 2..]);
    RawExt(GetU16(data[pos..]), len, data[pos + 4..][..Min(len, |data| - pos - 4)])
  }

  /** The extensions starting at `pos`; a body may run past `end`, never past the data. */
  function ExtsWithin(data: seq<byte>, pos: nat, end: nat): seq<RawExt>
    requires end <= |data|
    decreases end - pos
  {
    if pos + 4 > end then []
    else [ExtAt(data, pos)] + ExtsWithin(data, pos + 4 + ExtAt(data, pos).len, end)
  }

  /** The body of the last extension of type `typ`: a repeated type overwrites. */
  function LastBody(exts: seq<RawExt>, typ: uint16): Option<seq<byte>> {
    if exts == [] then None
    else
      var e := exts[|exts| - 1];
      if e.typ == typ then Some(e.body) else LastBody(exts[..|exts| - 1], typ)
  }

  function Field<T>(exts: seq<RawExt>, typ: uint16, parse: seq<byte> -> seq<T>): seq<T> {
    match LastBody(exts, typ)
    case None => []
    case Some(body) => parse(body)
  }

  function Types(exts: seq<RawExt>): (ts: seq<uint16>)
    ensures |ts| == |exts|
    ensures forall i :: 0 <= i < |exts| ==> ts[i] == exts[i].typ
  {
    seq(|exts|, i requires 0 <= i < |exts| => exts[i].typ)
  }

  /** The largest non-GREASE version, or 0. */
  function MaxVersion(vs: seq<uint16>): (m: uint16)
    ensures forall v :: v in vs && !IsGrease(v) ==> v <= m
    ensures m == 0 || (m in vs && !IsGrease(m))
  {
    if vs == [] then 0
    else
      var m := MaxVersion(vs[..|vs| - 1]);
      var v := vs[|vs| - 1];
      if v > m && !IsGrease(v) then v else m
  }

  function VersionUsed(legacy: uint16, versions: seq<uint16>): uint16 {
    if MaxVersion(versions) > 0 then MaxVersion(versions) else legacy
  }

  /** What the fields hold after the extensions `exts`, before the version is settled. */
  function Gather(legacy: uint16, ciphers: seq<uint16>, exts: seq<RawExt>): ClientHelloInfo {
    ClientHelloInfo(
      legacy, ciphers, Types(exts),
      Field(exts, EXT_SUPPORTED_GROUPS, U16ListOf),
      Field(exts, EXT_POINT_FORMATS, PointFormatsOf),
      Field(exts, EXT_SIGNATURE_ALGS, U16ListOf),
      Field(exts, EXT_ALPN, AlpnOf),
      Field(exts, EXT_SERVER_NAME, ServerNameOf),
      Field(exts, EXT_SUPPORTED_VERSIONS, VersionsOf))
  }

  function Settle(info: ClientHelloInfo): ClientHelloInfo {
    info.(tlsVersion := VersionUsed(info.tlsVersion, info.supportedVersions))
  }

  /** A hello read up to its extensions. */
  function Bare(legacy: uint16, ciphers: seq<uint16>): ClientHelloInfo {
    ClientHelloInfo(legacy, ciphers, [], [], [], [], [], [], [])
  }

  /** One pass through the switch: a recognised type overwrites its field. */
  function Record(info: ClientHelloInfo, e: RawExt): ClientHelloInfo {
    var r := info.(extensions := info.extensions + [e.typ]);
    if e.typ == EXT_SERVER_NAME then r.(serverName := ServerNameOf(e.body))
    else if e.typ == EXT_SUPPORTED_GROUPS then r.(ellipticCurves := U16ListOf(e.body))
    else if e.typ == EXT_POINT_FORMATS then r.(ecPointFormats := PointFormatsOf(e.body))
    else if e.typ == EXT_SIGNATURE_ALGS then r.(signatureAlgs := U16ListOf(e.body))
    else if e.typ == EXT_ALPN then r.(alpn := AlpnOf(e.body))
    else if e.typ == EXT_SUPPORTED_VERSIONS then r.(supportedVersions := VersionsOf(e.body))
    else r
  }

  function Recorded(info: ClientHelloInfo, exts: seq<RawExt>): ClientHelloInfo
    decreases |exts|
  {
    if exts == [] then info else Recorded(Record(info, exts[0]), exts[1..])
  }

  /** The extension block at `pos`, if there is room for its length. */
  function ExtsAt(data: seq<byte>, pos: nat): seq<RawExt> {
    if pos + 2 > |data| then []
    else ExtsWithin(data, pos + 2, Min(pos + 2 + GetU16(data[pos..]), |data|))
  }

  /** The fixed part of a body, and the offset where its extension block would start. */
  datatype Prelude =
    | Read(version: uint16, ciphers: seq<uint16>, next: nat)
    | Cut(error: ParseError)
    | Overrun

  /** `spare` is the capacity of the Go slice beyond its length. A cipher vector
      of odd length borrows the byte that follows it. */
  function PreludeOf(data: seq<byte>, spare: nat): Prelude {
    if |data| < 34 then Cut(BodyTooShort)
    else if |data| == 34 then Cut(TruncatedSessionId)
    else
      var vec := 37 + data[34] as int;
      if vec > |data| then Cut(TruncatedCipherLength)
      else
        var csLen: int := GetU16(data[vec - 2..]);
        if vec + csLen > |data| then Cut(TruncatedCiphers)
        else if vec + csLen == |data| then
          if csLen % 2 == 1 && spare == 0 then Overrun else Cut(TruncatedCompression)
        else
          Read(GetU16(data), GetU16s(data[vec..][..csLen + csLen % 2]), vec + csLen + 1 + data[vec + csLen])
  }

  function BodyOutcome(data: seq<byte>, spare: nat): Outcome {
    match PreludeOf(data, spare)
    case Cut(error) => Failed(error)
    case Overrun => Panicked
    case Read(version, ciphers, next) => Parsed(Settle(Recorded(Bare(version, ciphers), ExtsAt(data, next))))
  }

  /** The record and handshake headers: how long the ClientHello body is. */
  datatype Framing = Hello(hsLen: nat) | NoHello(error: ParseError)

  function FramingOf(data: seq<byte>): (r: Framing)
    ensures r.Hello? ==> 9 + r.hsLen <= |data|
  {
    if |data| < 5 then NoHello(RecordTooShort)
    else if data[0] != 0x16 then NoHello(NotHandshake)
    else
      var recordLen: int := GetU16(data[3..]);
      if |data| < 5 + recordLen then NoHello(IncompleteRecord)
      else if recordLen < 4 then NoHello(HandshakeTooShort)
      else if data[5] != 0x01 then NoHello(NotClientHello)
      else if recordLen < 4 + GetU24(data[6..]) as int then NoHello(IncompleteHello)
      else Hello(GetU24(data[6..]))
  }

  function HelloOutcome(data: seq<byte>, spare: nat): Outcome {
    match FramingOf(data)
    case NoHello(error) => Failed(error)
    case Hello(hsLen) => BodyOutcome(data[9..][..hsLen], spare + |data| - 9 - hsLen)
  }

  // ------------------------------------------------------------------
  // The offset-walking methods
  // ------------------------------------------------------------------

  method ParseServerName(data: seq<byte>) returns (name: seq<byte>)
    ensures name == ServerNameOf(data)
  {
    if |data| < 5 { return []; }
    var nameLen: int := GetU16(data[3..5]);
    if |data| < 5 + nameLen { return []; }
    return data[5..5 + nameLen];
  }

  /** parseSupportedGroups and parseSignatureAlgorithms: the same loop in both. */
  method ParseU16List(data: seq<byte>) returns (vs: seq<uint16>)
    ensures vs == U16ListOf(data)
  {
    if |data| < 2 { return []; }
    var listLen: int := GetU16(data[0..2]);
    assert listLen == GetU16(data);
    hide GetU16, GetU16s;
    vs := [];
    var i := 2;
    ghost var list := data[2..][..Min(listLen, |data| - 2)];
    NoPairs(list);
    while i + 1 < 2 + listLen && i + 1 < |data|
      invariant i % 2 == 0 && 2 <= i && i - 2 <= |list|
      invariant vs == GetU16s(list[..i - 2])
    {
      PairStep(data, 2, |list|, i - 2);
      vs := vs + [GetU16(data[i..i + 2])];
      i := i + 2;
    }
    PairsDone(list, i - 2);
  }

  method ParseECPointFormats(data: seq<byte>) returns (formats: seq<byte>)
    ensures formats == PointFormatsOf(data)
  {
    if |data| < 1 { return []; }
    var fmtLen: int := data[0];
    formats := [];
    var i := 1;
    while i < 1 + fmtLen && i < |data|
      invariant 1 <= i <= 1 + Min(fmtLen, |data| - 1)
      invariant formats == data[1..i]
    {
      formats := formats + [data[i]];
      i := i + 1;
    }
  }

  method ParseALPN(data: seq<byte>) returns (protos: seq<seq<byte>>)
    ensures protos == AlpnOf(data)
  {
    if |data| < 2 { return []; }
    var listLen: int := GetU16(data[0..2]);
    assert listLen == GetU16(data);
    hide GetU16, NamesOf;
    protos := [];
    var pos := 2;
    while pos < 2 + listLen && pos < |data|
      invariant 2 <= pos <= |data|
      invariant protos + NamesOf(data[pos..], 2 + listLen - pos) == AlpnOf(data)
      decreases |data| - pos
    {
      var name, next := ReadName(data, pos, 2 + listLen - pos);
      if name.None? { break; }
      Shift(protos, name.value, NamesOf(data[next..], 2 + listLen - next));
      protos := protos + [name.value];
      pos := next;
    }
    if pos == |data| || pos >= 2 + listLen { NoNames(data[pos..], 2 + listLen - pos); }
  }

  method ReadName(data: seq<byte>, pos: nat, ghost budget: int) returns (name: Option<seq<byte>>, next: nat)
    requires pos < |data| && budget > 0
    ensures pos < next
    ensures name.None? ==> NamesOf(data[pos..], budget) == []
    ensures name.Some? ==>
              && next <= |data|
              && NamesOf(data[pos..], budget) == [name.value] + NamesOf(data[next..], budget - (next - pos))
  {
    var pLen: int := data[pos];
    NamesAt(data, pos, budget);
    next := pos + 1 + pLen;
    if next > |data| { return None, next; }
    name := Some(data[pos + 1..next]);
  }

  lemma NoNames(s: seq<byte>, budget: int)
    requires budget <= 0 || s == []
    ensures NamesOf(s, budget) == []
  {}

  lemma NamesAt(data: seq<byte>, pos: nat, budget: int)
    requires pos < |data| && budget > 0
    ensures var next := pos + 1 + data[pos];
            NamesOf(data[pos..], budget) ==
            if next > |data| then []
            else [data[pos + 1..next]] + NamesOf(data[next..], budget - 1 - data[pos])
  {
    var s := data[pos..];
    if 1 + s[0] <= |s| {
      assert s[1..1 + s[0]] == data[pos + 1..pos + 1 + data[pos]];
      assert s[1 + s[0]..] == data[pos + 1 + data[pos]..];
    }
  }

  method ParseSupportedVersions(data: seq<byte>) returns (vs: seq<uint16>)
    ensures vs == VersionsOf(data)
  {
    if |data| < 1 { return []; }
    var listLen: int := data[0];
    hide GetU16, GetU16s;
    vs := [];
    var i := 1;
    ghost var list := data[1..][..Min(listLen, |data| - 1)];
    NoPairs(list);
    while i + 1 < 1 + listLen && i + 1 < |data|
      invariant i % 2 == 1 && 1 <= i && i - 1 <= |list|
      invariant vs == GetU16s(list[..i - 1])
    {
      PairStep(data, 1, |list|, i - 1);
      vs := vs + [GetU16(data[i..i + 2])];
      i := i + 2;
    }
    PairsDone(list, i - 1);
  }

  /** One more pair of the list of n bytes at an offset. */
  lemma PairStep(data: seq<byte>, from: nat, n: nat, i: nat)
    requires from + n <= |data| && i % 2 == 0 && i + 2 <= n
    ensures var list := data[from..][..n];
            GetU16s(list[..i + 2]) == GetU16s(list[..i]) + [GetU16(data[from + i..from + i + 2])]
  {
    var list := data[from..][..n];
    GetU16sSnoc(list, i);
    assert list[i..][..2] == data[from + i..from + i + 2];
  }

  lemma NoPairs(b: seq<byte>)
    ensures GetU16s(b[..0]) == []
  {}

  /** An odd last byte adds nothing, so a pair loop may stop one short. */
  lemma {:induction false} PairsDone(b: seq<byte>, i: nat)
    requires i % 2 == 0 && i <= |b| < i + 2
    ensures GetU16s(b[..i]) == GetU16s(b)
    decreases i
  {
    if i == 0 {
      assert b[..0] == [];
    } else {
      assert b[..i][2..] == b[2..][..i - 2];
      PairsDone(b[2..], i - 2);
    }
  }

  /** Extension by extension or field by field: the same information. */
  lemma {:induction false} RecordedIsGathered(legacy: uint16, ciphers: seq<uint16>, seen: seq<RawExt>, exts: seq<RawExt>)
    ensures Recorded(Gather(legacy, ciphers, seen), exts) == Gather(legacy, ciphers, seen + exts)
    decreases |exts|
  {
    if exts == [] {
      assert seen + exts == seen;
    } else {
      GatherSnoc(legacy, ciphers, seen, exts[0]);
      assert seen + [exts[0]] + exts[1..] == seen + exts;
      RecordedIsGathered(legacy, ciphers, seen + [exts[0]], exts[1..]);
    }
  }

  lemma GatherSnoc(legacy: uint16, ciphers: seq<uint16>, seen: seq<RawExt>, e: RawExt)
    ensures Record(Gather(legacy, ciphers, seen), e) == Gather(legacy, ciphers, seen + [e])
  {
    var all := seen + [e];
    assert all[..|all| - 1] == seen;
    assert Types(all) == Types(seen) + [e.typ];
  }

  method RecordExtension(info: ClientHelloInfo, e: RawExt) returns (r: ClientHelloInfo)
    ensures r == Record(info, e)
  {
    r := info.(extensions := info.extensions + [e.typ]);
    if e.typ == EXT_SERVER_NAME {
      var name := ParseServerName(e.body);
      r := r.(serverName := name);
    } else if e.typ == EXT_SUPPORTED_GROUPS {
      var groups := ParseU16List(e.body);
      r := r.(ellipticCurves := groups);
    } else if e.typ == EXT_POINT_FORMATS {
      var formats := ParseECPointFormats(e.body);
      r := r.(ecPointFormats := formats);
    } else if e.typ == EXT_SIGNATURE_ALGS {
      var algs := ParseU16List(e.body);
      r := r.(signatureAlgs := algs);
    } else if e.typ == EXT_ALPN {
      var protos := ParseALPN(e.body);
      r := r.(alpn := protos);
    } else if e.typ == EXT_SUPPORTED_VERSIONS {
      var versions := ParseSupportedVersions(e.body);
      r := r.(supportedVersions := versions);
    }
  }

  /** `mem` is the slice's backing array, `len` the slice's length: only the
      cipher-suite loop can look past `len`. */
  method ParseClientHelloBody(mem: seq<byte>, len: nat) returns (r: Outcome)
    requires len <= |mem|
    ensures r == BodyOutcome(mem[..len], |mem| - len)
  {
    var prelude := ParsePrelude(mem, len);
    match prelude {
      case Cut(error) => r := Failed(error);
      case Overrun => r := Panicked;
      case Read(version, ciphers, next) => r := ParseExtensions(mem[..len], next, version, ciphers);
    }
  }

  method ParsePrelude(mem: seq<byte>, len: nat) returns (r: Prelude)
    requires len <= |mem|
    ensures r == PreludeOf(mem[..len], |mem| - len)
  {
    var data := mem[..len];
    if |data| < 34 { return Cut(BodyTooShort); }
    var version := GetU16(data[0..2]);
    var pos := 34;
    if pos >= |data| { return Cut(TruncatedSessionId); }
    pos := pos + 1 + data[pos];
    if pos + 2 > |data| { return Cut(TruncatedCipherLength); }
    var csLen: int := GetU16(data[pos..pos + 2]);
    pos := pos + 2;
    if pos + csLen > |data| { return Cut(TruncatedCiphers); }
    var ciphers := ParseCiphers(mem, pos, csLen);
    if ciphers.None? { return Overrun; }
    ghost var vec := pos;
    pos := pos + csLen;
    if pos >= |data| { return Cut(TruncatedCompression); }
    SliceAt(mem, len, vec, csLen + csLen % 2);
    return Read(version, ciphers.value, pos + 1 + data[pos]);
  }

  lemma SliceAt(mem: seq<byte>, len: nat, from: nat, n: nat)
    requires from + n <= len <= |mem|
    ensures mem[..len][from..][..n] == mem[from..][..n]
  {}

  method ParseCiphers(mem: seq<byte>, pos: nat, csLen: nat) returns (r: Option<seq<uint16>>)
    requires pos + csLen <= |mem|
    ensures r.None? <==> pos + csLen == |mem| && csLen % 2 == 1
    ensures r.Some? ==> r.value == GetU16s(mem[pos..][..csLen + csLen % 2])
  {
    hide GetU16, GetU16s;
    var ciphers: seq<uint16> := [];
    var i := 0;
    NoPairs(mem[pos..][..|mem| - pos]);
    while i < csLen
      invariant i % 2 == 0 && i <= csLen + 1 && pos + i <= |mem|
      invariant ciphers == GetU16s(mem[pos..][..|mem| - pos][..i])
    {
      if pos + i + 2 > |mem| { return None; }
      PairStep(mem, pos, |mem| - pos, i);
      ciphers := ciphers + [GetU16(mem[pos + i..pos + i + 2])];
      i := i + 2;
    }
    assert mem[pos..][..|mem| - pos] == mem[pos..];
    return Some(ciphers);
  }

  method ScanExtensions(data: seq<byte>, start: nat, extEnd: nat, version: uint16, ciphers: seq<uint16>)
    returns (info: ClientHelloInfo)
    requires start <= extEnd <= |data|
    ensures info == Recorded(Bare(version, ciphers), ExtsWithin(data, start, extEnd))
  {
    info := Bare(version, ciphers);
    var pos := start;
    ghost var result := Recorded(info, ExtsWithin(data, start, extEnd));
    while pos + 4 <= extEnd
      invariant start <= pos
      invariant Recorded(info, ExtsWithin(data, pos, extEnd)) == result
      decreases extEnd - pos
    {
      info, pos := TakeExtension(data, pos, extEnd, info);
    }
  }

  /** One iteration: read the extension at `pos`, record it, step over it. */
  method TakeExtension(data: seq<byte>, pos: nat, extEnd: nat, info: ClientHelloInfo)
    returns (r: ClientHelloInfo, next: nat)
    requires pos + 4 <= extEnd <= |data|
    ensures pos + 4 <= next
    ensures Recorded(r, ExtsWithin(data, next, extEnd)) == Recorded(info, ExtsWithin(data, pos, extEnd))
  {
    var e := ReadExtension(data, pos);
    ScanStep(info, data, pos, extEnd);
    r := RecordExtension(info, e);
    next := pos + 4 + e.len;
  }

  method ReadExtension(data: seq<byte>, pos: nat) returns (e: RawExt)
    requires pos + 4 <= |data|
    ensures e == ExtAt(data, pos)
  {
    var extType := GetU16(data[pos..pos + 2]);
    var extLen: int := GetU16(data[pos + 2..pos + 4]);
    var extData := data[pos + 4..];
    if |extData| > extLen { extData := extData[..extLen]; }
    e := RawExt(extType, extLen, extData);
  }

  lemma ScanStep(info: ClientHelloInfo, data: seq<byte>, pos: nat, end: nat)
    requires pos + 4 <= end <= |data|
    ensures var e := ExtAt(data, pos);
            Recorded(info, ExtsWithin(data, pos, end)) ==
            Recorded(Record(info, e), ExtsWithin(data, pos + 4 + e.len, end))
  {
    var all := ExtsWithin(data, pos, end);
    assert all[1..] == ExtsWithin(data, pos + 4 + ExtAt(data, pos).len, end);
  }

  method ParseExtensions(data: seq<byte>, start: nat, version: uint16, ciphers: seq<uint16>) returns (r: Outcome)
    ensures r == Parsed(Settle(Recorded(Bare(version, ciphers), ExtsAt(data, start))))
  {
    var pos := start;
    if pos + 2 > |data| { return Parsed(ClientHelloInfo(version, ciphers, [], [], [], [], [], [], [])); }
    var extTotalLen: int := GetU16(data[pos..pos + 2]);
    hide Recorded, ExtsWithin, MaxVersion, IsGrease;
    pos := pos + 2;
    var extEnd := pos + extTotalLen;
    if extEnd > |data| { extEnd := |data|; }
    var info := ScanExtensions(data, pos, extEnd, version, ciphers);
    r := Parsed(info);
    if |info.supportedVersions| > 0 {
      var maxVer := HighestVersion(info.supportedVersions);
      if maxVer > 0 { r := Parsed(info.(tlsVersion := maxVer)); }
    }
  }

  method HighestVersion(versions: seq<uint16>) returns (maxVer: uint16)
    ensures maxVer == MaxVersion(versions)
  {
    maxVer := 0;
    for k := 0 to |versions|
      invariant maxVer == MaxVersion(versions[..k])
    {
      var v := versions[k];
      assert versions[..k + 1][..k] == versions[..k];
      if v > maxVer && !IsGrease(v) { maxVer := v; }
    }
    assert versions[..|versions|] == versions;
  }

  method ParseClientHello(mem: seq<byte>, len: nat) returns (r: Outcome)
    requires len <= |mem|
    ensures r == HelloOutcome(mem[..len], |mem| - len)
  {
    var framing := ParseFraming(mem[..len]);
    match framing {
      case NoHello(error) => r := Failed(error);
      case Hello(hsLen) =>
        assert mem[9..][..hsLen] == mem[..len][9..][..hsLen];
        r := ParseClientHelloBody(mem[9..], hsLen);
    }
  }

  method ParseFraming(data: seq<byte>) returns (r: Framing)
    ensures r == FramingOf(data)
  {
    if |data| < 5 { return NoHello(RecordTooShort); }
    if data[0] != 0x16 { return NoHello(NotHandshake); }
    var recordLen: int := GetU16(data[3..5]);
    if |data| < 5 + recordLen { return NoHello(IncompleteRecord); }
    var hs := data[5..5 + recordLen];
    if |hs| < 4 { return NoHello(HandshakeTooShort); }
    if hs[0] != 0x01 { return NoHello(NotClientHello); }
    var hsLen: int := hs[1] as int * 0x1_0000 + hs[2] as int * 0x100 + hs[3];
    if |hs| < 4 + hsLen { return NoHello(IncompleteHello); }
    return Hello(hsLen);
  }
}
