/**
 JA3 and JA4 canonicalisation of mango-waf/fingerprint/fingerprint.go. MD5 is an
 uninterpreted function from text to hex text, passed in as `md5`.
 */
module Fingerprint {
  import opened Bytes
  import opened Sorting
  import opened Text
  import opened TlsParser
  import opened Wrappers

  /** The values in order without GREASE. */
  function Filter(values: seq<uint16>): (r: seq<uint16>)
    ensures forall v :: v in r <==> v in values && !IsGrease(v)
  {
    if values == [] then []
    else
      var v, front := values[|values| - 1], Filter(values[..|values| - 1]);
      if IsGrease(v) then front else front + [v]
  }

  method FilterGrease16(values: seq<uint16>) returns (r: seq<uint16>)
    ensures r == Filter(values)
  {
    r := [];
    for i := 0 to |values|
      invariant r == Filter(values[..i])
    {
      assert values[..i + 1][..i] == values[..i];
      if !IsGrease(values[i]) { r := r + [values[i]]; }
    }
    assert values[..|values|] == values;
  }

  method JoinUint16(values: seq<uint16>, sep: char) returns (s: string)
    ensures s == Join(Decimals(values), sep)
  {
    var strs := [];
    for i := 0 to |values|
      invariant strs == Decimals(values[..i])
    {
      strs := strs + [Itoa(values[i])];
    }
    assert values[..|values|] == values;
    s := Join(strs, sep);
  }

  lemma {:induction false} FilterAppend(a: seq<uint16>, b: seq<uint16>)
    ensures Filter(a + b) == Filter(a) + Filter(b)
    decreases |b|
  {
    hide IsGrease;
    if b == [] {
      assert a + b == a;
    } else {
      var n := |b| - 1;
      assert (a + b)[..|a + b| - 1] == a + b[..n];
      assert (a + b)[|a + b| - 1] == b[n];
      FilterAppend(a, b[..n]);
      assert Filter(a) + (Filter(b[..n]) + [b[n]]) == Filter(a) + Filter(b[..n]) + [b[n]];
    }
  }

  lemma {:induction false} GreaseVanishes(g: seq<uint16>)
    requires forall v :: v in g ==> IsGrease(v)
    ensures Filter(g) == []
    decreases |g|
  {
    if g != [] {
      assert g[|g| - 1] in g;
      GreaseVanishes(g[..|g| - 1]);
    }
  }

  /** GREASE inserted anywhere is filtered out again. */
  lemma GreaseInserted(a: seq<uint16>, g: seq<uint16>, b: seq<uint16>)
    requires forall v :: v in g ==> IsGrease(v)
    ensures Filter(a + g + b) == Filter(a + b)
  {
    hide Filter, IsGrease;
    FilterAppend(a + g, b);
    FilterAppend(a, g);
    GreaseVanishes(g);
    FilterAppend(a, b);
  }

  lemma {:induction false} FilterCounts(values: seq<uint16>, v: uint16)
    ensures multiset(Filter(values))[v] == if IsGrease(v) then 0 else multiset(values)[v]
    decreases |values|
  {
    if values != [] {
      var n := |values| - 1;
      FilterCounts(values[..n], v);
      assert values == values[..n] + [values[n]];
    }
  }

  lemma FilterPermuted(a: seq<uint16>, b: seq<uint16>)
    requires multiset(a) == multiset(b)
    ensures multiset(Filter(a)) == multiset(Filter(b))
  {
    forall v: uint16 ensures multiset(Filter(a))[v] == multiset(Filter(b))[v] {
      FilterCounts(a, v);
      FilterCounts(b, v);
    }
    MultisetsOfU16(Filter(a), Filter(b));
  }

  lemma MultisetsOfU16(a: seq<uint16>, b: seq<uint16>)
    requires forall v: uint16 :: multiset(a)[v] == multiset(b)[v]
    ensures multiset(a) == multiset(b)
  {
    forall v: int ensures multiset(a)[v] == multiset(b)[v] {
      if v !in a && v !in b {
        assert v !in multiset(a) && v !in multiset(b);
      }
    }
  }

  // ------------------------------------------------------------------
  // JA3
  // ------------------------------------------------------------------

  datatype BrowserInfo = BrowserInfo(name: string, trustScore: real)

  datatype Ja3Input = Ja3Input(
    version: uint16,
    ciphers: seq<uint16>,
    extensions: seq<uint16>,
    curves: seq<uint16>,
    pointFormats: seq<byte>)

  datatype Ja3Result = Ja3Result(
    hash: string, raw: string, tlsVersion: uint16, known: bool, browserId: string, trustScore: real)

  function Ja3Parts(x: Ja3Input): (parts: seq<string>)
    ensures |parts| == 5
  {
    [Itoa(x.version),
     Join(Decimals(Filter(x.ciphers)), '-'),
     Join(Decimals(Filter(x.extensions)), '-'),
     Join(Decimals(Filter(x.curves)), '-'),
     Join(Decimals(x.pointFormats), '-')]
  }

  function Ja3Raw(x: Ja3Input): string {
    Join(Ja3Parts(x), ',')
  }

  function Ja3Of(x: Ja3Input, md5: string -> string, known: map<string, BrowserInfo>): Ja3Result {
    var hash := md5(Ja3Raw(x));
    if hash in known then Ja3Result(hash, Ja3Raw(x), x.version, true, known[hash].name, known[hash].trustScore)
    else Ja3Result(hash, Ja3Raw(x), x.version, false, "", 0.0)
  }

  method JA3(x: Ja3Input, md5: string -> string, known: map<string, BrowserInfo>) returns (r: Ja3Result)
    ensures r == Ja3Of(x, md5, known)
  {
    var cs := FilterGrease16(x.ciphers);
    var csText := JoinUint16(cs, '-');
    var ext := FilterGrease16(x.extensions);
    var extText := JoinUint16(ext, '-');
    var ec := FilterGrease16(x.curves);
    var ecText := JoinUint16(ec, '-');
    var ecpf := [];
    for i := 0 to |x.pointFormats|
      invariant ecpf == Decimals(x.pointFormats[..i])
    {
      ecpf := ecpf + [Itoa(x.pointFormats[i])];
    }
    assert x.pointFormats[..|x.pointFormats|] == x.pointFormats;
    var parts := [Itoa(x.version), csText, extText, ecText, Join(ecpf, '-')];
    var raw := Join(parts, ',');
    assert parts == Ja3Parts(x);
    var hash := md5(raw);
    r := Ja3Result(hash, raw, x.version, false, "", 0.0);
    if hash in known {
      r := r.(known := true, browserId := known[hash].name, trustScore := known[hash].trustScore);
    }
  }

  /** The result, field by field: the five parts in order behind four commas. */
  lemma Ja3Reads(x: Ja3Input, md5: string -> string, known: map<string, BrowserInfo>)
    ensures var r := Ja3Of(x, md5, known);
            && r.raw == Itoa(x.version) + "," + Join(Decimals(Filter(x.ciphers)), '-') + ","
                        + Join(Decimals(Filter(x.extensions)), '-') + ","
                        + Join(Decimals(Filter(x.curves)), '-') + "," + Join(Decimals(x.pointFormats), '-')
            && r.hash == md5(r.raw) && r.tlsVersion == x.version
            && (r.known <==> md5(r.raw) in known)
            && r.browserId == (if md5(r.raw) in known then known[md5(r.raw)].name else "")
            && r.trustScore == (if md5(r.raw) in known then known[md5(r.raw)].trustScore else 0.0)
  {
    hide Itoa, Decimals, Filter, Join;
    RawReads(x);
  }

  lemma JoinFive(p: seq<string>, sep: char)
    requires |p| == 5
    ensures Join(p, sep) == p[0] + [sep] + p[1] + [sep] + p[2] + [sep] + p[3] + [sep] + p[4]
  {
    hide Join;
    JoinSplit(p, sep);
    JoinSplit(p[1..], sep);
    JoinSplit(p[2..], sep);
    JoinSplit(p[3..], sep);
    assert p[1..][1..] == p[2..] && p[2..][1..] == p[3..] && p[3..][1..] == [p[4]];
    JoinOne(p[4], sep);
    var t4 := p[3] + [sep] + p[4];
    var t3 := p[2] + [sep] + t4;
    var t2 := p[1] + [sep] + t3;
    assert Join(p, sep) == p[0] + [sep] + t2;
    assert p[0] + [sep] + t2 == p[0] + [sep] + p[1] + [sep] + t3;
    assert p[0] + [sep] + p[1] + [sep] + t3 == p[0] + [sep] + p[1] + [sep] + p[2] + [sep] + t4;
  }

  lemma JoinOne(s: string, sep: char)
    ensures Join([s], sep) == s
  {}

  /** One hello, spelled out: GREASE gone, the other values in order, five parts. */
  lemma Ja3Example(x: Ja3Input)
    requires x.version == 771 && x.ciphers == [0x0a0a, 4865, 4866] && x.extensions == [0, 0x0a0a, 10]
    requires x.curves == [29] && x.pointFormats == [0]
    ensures Ja3Raw(x) == "771,4865-4866,0-10,29,0"
  {
    hide *;
    ExampleParts(x);
    RawReads(x);
    Spelled(Itoa(x.version), Join(Decimals(Filter(x.ciphers)), '-'), Join(Decimals(Filter(x.extensions)), '-'),
            Join(Decimals(Filter(x.curves)), '-'), Join(Decimals(x.pointFormats), '-'));
  }

  lemma Spelled(v: string, c: string, e: string, k: string, p: string)
    requires v == "771" && c == "4865-4866" && e == "0-10" && k == "29" && p == "0"
    ensures v + "," + c + "," + e + "," + k + "," + p == "771,4865-4866,0-10,29,0"
  {}

  lemma ExampleParts(x: Ja3Input)
    requires x.version == 771 && x.ciphers == [0x0a0a, 4865, 4866] && x.extensions == [0, 0x0a0a, 10]
    requires x.curves == [29] && x.pointFormats == [0]
    ensures Itoa(x.version) == "771" && Join(Decimals(Filter(x.ciphers)), '-') == "4865-4866"
    ensures Join(Decimals(Filter(x.extensions)), '-') == "0-10"
    ensures Join(Decimals(Filter(x.curves)), '-') == "29" && Join(Decimals(x.pointFormats), '-') == "0"
  {
    SmallNumbers();
    hide *;
    CipherPart(x.ciphers);
    ExtensionPart(x.extensions);
    CurvePart(x.curves);
    ListOfOne(0);
  }

  lemma CipherPart(values: seq<uint16>)
    requires values == [0x0a0a, 4865, 4866]
    ensures Join(Decimals(Filter(values)), '-') == "4865-4866"
  {
    TwoPlain(0x0a0a, 4865, 4866);
    SmallNumbers();
    hide *;
    ListOfTwo(4865, 4866);
  }

  lemma ExtensionPart(values: seq<uint16>)
    requires values == [0, 0x0a0a, 10]
    ensures Join(Decimals(Filter(values)), '-') == "0-10"
  {
    MiddleGrease(0, 0x0a0a, 10);
    SmallNumbers();
    hide *;
    ListOfTwo(0, 10);
  }

  lemma CurvePart(values: seq<uint16>)
    requires values == [29]
    ensures Join(Decimals(Filter(values)), '-') == "29"
  {
    OnePlain(29);
    SmallNumbers();
    hide *;
    ListOfOne(29);
  }

  lemma OnePlain(e: uint16)
    requires !IsGrease(e)
    ensures Filter([e]) == [e]
  {
    assert [e][..0] == [];
  }

  lemma TwoPlain(g: uint16, a: uint16, b: uint16)
    requires IsGrease(g) && !IsGrease(a) && !IsGrease(b)
    ensures Filter([g, a, b]) == [a, b]
  {
    hide IsGrease;
    assert Filter([g]) == [];
    KeepsPlain([g], a);
    KeepsPlain([g, a], b);
    assert [g] + [a] == [g, a] && [g, a] + [b] == [g, a, b] && [] + [a] == [a] && [a] + [b] == [a, b];
  }

  lemma MiddleGrease(c: uint16, g: uint16, d: uint16)
    requires IsGrease(g) && !IsGrease(c) && !IsGrease(d)
    ensures Filter([c, g, d]) == [c, d]
  {
    OnePlain(c);
    GreaseInserted([c], [g], [d]);
    KeepsPlain([c], d);
    hide Filter, IsGrease;
    assert [c] + [g] + [d] == [c, g, d] && [c] + [d] == [c, d];
  }

  lemma KeepsPlain(front: seq<uint16>, v: uint16)
    requires !IsGrease(v)
    ensures Filter(front + [v]) == Filter(front) + [v]
  {
    assert (front + [v])[..|front|] == front;
  }

  lemma RawReads(x: Ja3Input)
    ensures Ja3Raw(x) == Itoa(x.version) + "," + Join(Decimals(Filter(x.ciphers)), '-') + ","
                         + Join(Decimals(Filter(x.extensions)), '-') + ","
                         + Join(Decimals(Filter(x.curves)), '-') + "," + Join(Decimals(x.pointFormats), '-')
  {
    hide Itoa, Decimals, Filter, Join;
    JoinFive(Ja3Parts(x), ',');
  }

  lemma ListOfTwo(a: nat, b: nat)
    ensures Join(Decimals([a, b]), '-') == Itoa(a) + "-" + Itoa(b)
  {
    assert Decimals([a, b])[1..] == [Itoa(b)];
  }

  lemma ListOfOne(a: nat)
    ensures Join(Decimals([a]), '-') == Itoa(a)
  {}

  lemma SmallNumbers()
    ensures Itoa(771) == "771" && Itoa(4865) == "4865" && Itoa(4866) == "4866"
    ensures Itoa(0) == "0" && Itoa(10) == "10" && Itoa(29) == "29"
  {
    assert Itoa(77) == "77" && Itoa(48) == "48";
    assert Itoa(486) == "486";
  }

  /** What JA3 sees of a hello. */
  function Ja3Canonical(x: Ja3Input): Ja3Input {
    Ja3Input(x.version, Filter(x.ciphers), Filter(x.extensions), Filter(x.curves), x.pointFormats)
  }

  /** Two inputs share a Raw string, and then the whole result, exactly when they
      agree once GREASE is removed. */
  lemma Ja3Exact(x: Ja3Input, y: Ja3Input, md5: string -> string, known: map<string, BrowserInfo>)
    ensures Ja3Raw(x) == Ja3Raw(y) <==> Ja3Canonical(x) == Ja3Canonical(y)
    ensures Ja3Raw(x) == Ja3Raw(y) <==> Ja3Of(x, md5, known) == Ja3Of(y, md5, known)
  {
    if Ja3Canonical(x) == Ja3Canonical(y) {
      assert Ja3Parts(x) == Ja3Parts(y);
    }
    if Ja3Raw(x) == Ja3Raw(y) {
      Ja3PartsClean(x);
      Ja3PartsClean(y);
      JoinInjective(Ja3Parts(x), Ja3Parts(y), ',');
      SameParts(x, y);
    }
  }

  lemma Ja3PartsClean(x: Ja3Input)
    ensures Without(Ja3Parts(x), ',')
  {
    NumberListAvoids([x.version], '-', ',');
    NumberListAvoids(Filter(x.ciphers), '-', ',');
    NumberListAvoids(Filter(x.extensions), '-', ',');
    NumberListAvoids(Filter(x.curves), '-', ',');
    NumberListAvoids(x.pointFormats, '-', ',');
  }

  lemma SameParts(x: Ja3Input, y: Ja3Input)
    requires Ja3Parts(x) == Ja3Parts(y)
    ensures Ja3Canonical(x) == Ja3Canonical(y)
  {
    var p, q := Ja3Parts(x), Ja3Parts(y);
    assert p[0] == q[0] && p[1] == q[1] && p[2] == q[2] && p[3] == q[3] && p[4] == q[4];
    AtoiItoa(x.version);
    AtoiItoa(y.version);
    NumberListInjective(Filter(x.ciphers), Filter(y.ciphers), '-');
    NumberListInjective(Filter(x.extensions), Filter(y.extensions), '-');
    NumberListInjective(Filter(x.curves), Filter(y.curves), '-');
    NumberListInjective(x.pointFormats, y.pointFormats, '-');
  }

  // ------------------------------------------------------------------
  // JA4
  // ------------------------------------------------------------------

  /** Go strings are bytes; here each is the char of that code. */
  datatype Ja4Input = Ja4Input(
    proto: string,
    version: uint16,
    sni: string,
    ciphers: seq<uint16>,
    extensions: seq<uint16>,
    sigAlgs: seq<uint16>,
    alpn: string)

  datatype Ja4Result = Ja4Result(hash: string, raw: string, tlsVersion: string, sni: string)

  function ProtoTag(proto: string): string {
    match proto
    case "tcp" => "t"
    case "quic" => "q"
    case _ => "t"
  }

  function VersionTag(version: uint16): string {
    match version
    case 0x0304 => "13"
    case 0x0303 => "12"
    case 0x0302 => "11"
    case 0x0301 => "10"
    case _ => "00"
  }

  /** The "%02d" verb. */
  function TwoDigits(n: nat): (s: string)
    ensures |s| >= 2 && (n < 100 ==> |s| == 2)
  {
    if n < 10 then "0" + Itoa(n)
    else
      assert n < 100 ==> |Itoa(n / 10)| == 1;
      Itoa(n)
  }

  function TruncatedHash(input: string, length: nat, md5: string -> string): (r: string)
    ensures r <= md5(input) && |r| == Min(length, |md5(input)|)
  {
    var h := md5(input);
    if |h| > length then h[..length] else h
  }

  function SortU16(values: seq<uint16>): (r: seq<uint16>)
    ensures r == Sort(values) && multiset(r) == multiset(values)
  {
    SortMembers(values);
    Sort(values)
  }

  /** The text hashed for a list: filtered, sorted, printed, joined. */
  function SortedText(values: seq<uint16>): string {
    Join(Decimals(SortU16(Filter(values))), ',')
  }

  /** Protocol, version, SNI flag, two counts, ALPN. */
  function Ja4Head(x: Ja4Input, ciphers: nat, extensions: nat): seq<string>
    requires |x.alpn| != 1
  {
    [ProtoTag(x.proto), VersionTag(x.version), if x.sni != "" then "d" else "i",
     TwoDigits(ciphers), TwoDigits(extensions), if x.alpn != "" then x.alpn[..2] else "00"]
  }

  function Ja4Assemble(x: Ja4Input, head: seq<string>, csHash: string, extHash: string): Ja4Result {
    Ja4Result(Concat(head) + "_" + csHash + "_" + extHash, Join(head + [csHash, extHash], '_'),
              VersionTag(x.version), x.sni)
  }

  /** None is Go's panic on slicing two bytes out of a one-byte ALPN name. */
  function Ja4Of(x: Ja4Input, md5: string -> string): Option<Ja4Result> {
    if |x.alpn| == 1 then None
    else Some(Ja4Assemble(x, Ja4Head(x, |Filter(x.ciphers)|, |Filter(x.extensions)|),
                          TruncatedHash(SortedText(x.ciphers), 12, md5),
                          TruncatedHash(SortedText(x.extensions), 12, md5)))
  }

  /** sort.Slice with `<` on the values: an in-place sort. Its algorithm is the
      library's; the contract is all the caller relies on. */
  method SortSlice(a: array<uint16>)
    modifies a
    ensures Sorted(a[..]) && multiset(a[..]) == multiset(old(a[..]))
  {
    for i := 0 to a.Length
      invariant Sorted(a[..i])
      invariant multiset(a[..]) == multiset(old(a[..]))
    {
      SiftDown(a, i);
    }
    assert a[..a.Length] == a[..];
  }

  /** Move element `i` left to its place in the sorted prefix. */
  method SiftDown(a: array<uint16>, i: nat)
    requires i < a.Length && Sorted(a[..i])
    modifies a
    ensures Sorted(a[..i + 1]) && multiset(a[..]) == multiset(old(a[..]))
  {
    var j := i;
    while j > 0 && a[j - 1] > a[j]
      invariant 0 <= j <= i
      invariant forall p, q :: 0 <= p < q <= i && q != j ==> a[p] <= a[q]
      invariant multiset(a[..]) == multiset(old(a[..]))
    {
      SwapBack(a, j);
      j := j - 1;
    }
  }

  method SwapBack(a: array<uint16>, j: nat)
    requires 0 < j < a.Length
    modifies a
    ensures a[..] == old(a[..])[j - 1 := old(a[j])][j := old(a[j - 1])]
    ensures multiset(a[..]) == multiset(old(a[..]))
  {
    a[j - 1], a[j] := a[j], a[j - 1];
  }

  method SortedHash(values: seq<uint16>, md5: string -> string) returns (h: string, count: nat)
    ensures h == TruncatedHash(SortedText(values), 12, md5) && count == |Filter(values)|
  {
    var cs := FilterGrease16(values);
    count := |cs|;
    var a := new uint16[|cs|](i requires 0 <= i < |cs| => cs[i]);
    assert a[..] == cs;
    SortSlice(a);
    SortSorted(cs);
    OneSortedPermutation(a[..], Sort(cs));
    assert a[..] == SortU16(cs);
    var text := JoinUint16(a[..], ',');
    h := TruncatedHash(text, 12, md5);
  }

  method JA4(x: Ja4Input, md5: string -> string) returns (r: Option<Ja4Result>)
    ensures r == Ja4Of(x, md5)
  {
    hide SortedText, TruncatedHash, Filter, Concat, Join, TwoDigits, VersionTag, ProtoTag;
    var csHash, csCount := SortedHash(x.ciphers, md5);
    var extHash, extCount := SortedHash(x.extensions, md5);
    var parts := Tags(x, csCount, extCount);
    if parts.None? { return None; }
    var raw := Concat(parts.value);
    var hash := raw + "_" + csHash + "_" + extHash;
    var all := parts.value + [csHash, extHash];
    r := Some(Ja4Result(hash, Join(all, '_'), parts.value[1], x.sni));
  }

  /** The first six parts; None is the panic on `alpn[:2]`. */
  method Tags(x: Ja4Input, csCount: nat, extCount: nat) returns (r: Option<seq<string>>)
    ensures r == if |x.alpn| == 1 then None else Some(Ja4Head(x, csCount, extCount))
  {
    hide TwoDigits;
    var proto := "t";
    if x.proto == "quic" { proto := "q"; }
    var ver := "00";
    if x.version == 0x0304 { ver := "13"; }
    else if x.version == 0x0303 { ver := "12"; }
    else if x.version == 0x0302 { ver := "11"; }
    else if x.version == 0x0301 { ver := "10"; }
    var sni := "i";
    if x.sni != "" { sni := "d"; }
    var alpn := "00";
    if x.alpn != "" {
      if |x.alpn| < 2 { return None; }
      alpn := x.alpn[..2];
    }
    r := Some([proto, ver, sni, TwoDigits(csCount), TwoDigits(extCount), alpn]);
  }

  /** What JA4 sees of a hello: bags of non-GREASE values, and no signature algorithms. */
  ghost predicate Ja4Alike(x: Ja4Input, y: Ja4Input) {
    && x.proto == y.proto && x.version == y.version && x.sni == y.sni && x.alpn == y.alpn
    && multiset(Filter(x.ciphers)) == multiset(Filter(y.ciphers))
    && multiset(Filter(x.extensions)) == multiset(Filter(y.extensions))
  }

  /** The text hashed determines, and is determined by, the bag of non-GREASE values. */
  lemma SortedTextExact(a: seq<uint16>, b: seq<uint16>)
    ensures SortedText(a) == SortedText(b) <==> multiset(Filter(a)) == multiset(Filter(b))
  {
    SortCanonical(Filter(a), Filter(b));
    NumberListInjective(SortU16(Filter(a)), SortU16(Filter(b)), ',');
  }

  /** The text hashed is the sorted list of the non-GREASE values, joined with commas. */
  lemma SortedTextReads(values: seq<uint16>, xs: seq<uint16>)
    requires Sorted(xs) && multiset(xs) == multiset(Filter(values))
    ensures SortedText(values) == Join(Decimals(xs), ',')
  {
    SortSorted(Filter(values));
    OneSortedPermutation(xs, SortU16(Filter(values)));
  }

  lemma AtoiTwoDigits(n: nat)
    ensures Digits(TwoDigits(n)) && Atoi(TwoDigits(n)) == n
  {
    AtoiItoa(n);
    if n < 10 {
      var s := TwoDigits(n);
      assert s[..1] == "0" && s[..1][..0] == "";
    }
  }

  /** The four versions with a tag of their own. */
  lemma VersionTagExact(version: uint16)
    ensures VersionTag(version) == "13" <==> version == 0x0304
    ensures VersionTag(version) == "12" <==> version == 0x0303
    ensures VersionTag(version) == "11" <==> version == 0x0302
    ensures VersionTag(version) == "10" <==> version == 0x0301
    ensures VersionTag(version) == "00" <==> version !in {0x0301, 0x0302, 0x0303, 0x0304}
  {}

  function AlpnTag(alpn: string): string
    requires |alpn| != 1
  {
    if alpn == "" then "00" else alpn[..2]
  }

  /** What the Raw text of JA4 tells apart: hashes, counts and tags. */
  predicate Ja4SameKey(x: Ja4Input, y: Ja4Input, md5: string -> string)
    requires |x.alpn| != 1 && |y.alpn| != 1
  {
    && (x.proto == "quic" <==> y.proto == "quic")
    && (x.version == y.version || (x.version !in {0x0301, 0x0302, 0x0303, 0x0304}
                                   && y.version !in {0x0301, 0x0302, 0x0303, 0x0304}))
    && (x.sni == "" <==> y.sni == "")
    && |Filter(x.ciphers)| == |Filter(y.ciphers)| && |Filter(x.extensions)| == |Filter(y.extensions)|
    && AlpnTag(x.alpn) == AlpnTag(y.alpn)
    && TruncatedHash(SortedText(x.ciphers), 12, md5) == TruncatedHash(SortedText(y.ciphers), 12, md5)
    && TruncatedHash(SortedText(x.extensions), 12, md5) == TruncatedHash(SortedText(y.extensions), 12, md5)
  }

  function Ja4Parts(x: Ja4Input, md5: string -> string): (parts: seq<string>)
    requires |x.alpn| != 1
    ensures |parts| == 8
  {
    Ja4Head(x, |Filter(x.ciphers)|, |Filter(x.extensions)|)
    + [TruncatedHash(SortedText(x.ciphers), 12, md5), TruncatedHash(SortedText(x.extensions), 12, md5)]
  }

  lemma Ja4PartsClean(x: Ja4Input, md5: string -> string)
    requires |x.alpn| != 1 && forall s: string :: '_' !in md5(s)
    ensures var p := Ja4Parts(x, md5);
            Without(p[..5], '_') && Without(p[6..], '_') && |p[5]| == 2
  {
    hide Filter, SortedText, TruncatedHash, TwoDigits;
    AtoiTwoDigits(|Filter(x.ciphers)|);
    AtoiTwoDigits(|Filter(x.extensions)|);
    HashClean(SortedText(x.ciphers), md5);
    HashClean(SortedText(x.extensions), md5);
    var p := Ja4Parts(x, md5);
    assert '_' !in p[0] && '_' !in p[1] && '_' !in p[2];
    assert p[..5] == [p[0], p[1], p[2], p[3], p[4]] && p[6..] == [p[6], p[7]];
  }

  lemma HashClean(text: string, md5: string -> string)
    requires '_' !in md5(text)
    ensures '_' !in TruncatedHash(text, 12, md5)
  {}

  /** With hashes free of the separator, two inputs share the Raw text of JA4
      exactly when they agree on every tag, count and hash. */
  lemma Ja4RawExact(x: Ja4Input, y: Ja4Input, md5: string -> string)
    requires |x.alpn| != 1 && |y.alpn| != 1
    requires forall s: string :: '_' !in md5(s)
    ensures Ja4Of(x, md5).value.raw == Ja4Of(y, md5).value.raw <==> Ja4SameKey(x, y, md5)
  {
    hide Filter, SortedText, TruncatedHash, TwoDigits, Join, VersionTag;
    var p, q := Ja4Parts(x, md5), Ja4Parts(y, md5);
    assert Ja4Of(x, md5).value.raw == Join(p, '_') && Ja4Of(y, md5).value.raw == Join(q, '_');
    AtoiTwoDigits(|Filter(x.ciphers)|);
    AtoiTwoDigits(|Filter(y.ciphers)|);
    AtoiTwoDigits(|Filter(x.extensions)|);
    AtoiTwoDigits(|Filter(y.extensions)|);
    if Join(p, '_') == Join(q, '_') {
      Ja4PartsClean(x, md5);
      Ja4PartsClean(y, md5);
      JoinAround(p, q, 5, '_');
      assert p[0] == q[0] && p[1] == q[1] && p[2] == q[2] && p[3] == q[3];
      assert p[4] == q[4] && p[5] == q[5] && p[6] == q[6] && p[7] == q[7];
    }
    VersionTagExact(x.version);
    VersionTagExact(y.version);
    if Ja4SameKey(x, y, md5) {
      assert p == q;
    }
  }

  /** The first twelve characters, or all of them. */
  function FirstTwelve(s: string): string {
    if |s| < 12 then s else s[..12]
  }

  /** The Hash text read back by position, for lists of at most 99 values; and Raw
      holds the same parts, one underscore between any two. */
  lemma Ja4Reads(x: Ja4Input, md5: string -> string)
    requires |x.alpn| != 1 && |Filter(x.ciphers)| < 100 && |Filter(x.extensions)| < 100
    ensures var r := Ja4Of(x, md5).value;
            && |r.hash| > 10 && r.hash[0] == (if x.proto == "quic" then 'q' else 't')
            && r.hash[1..3] == VersionTag(x.version) == r.tlsVersion
            && r.hash[3] == (if x.sni != "" then 'd' else 'i')
            && Digits(r.hash[4..6]) && Atoi(r.hash[4..6]) == |Filter(x.ciphers)|
            && Digits(r.hash[6..8]) && Atoi(r.hash[6..8]) == |Filter(x.extensions)|
            && r.hash[8..10] == AlpnTag(x.alpn)
            && r.hash[10..] == "_" + FirstTwelve(md5(SortedText(x.ciphers))) + "_" + FirstTwelve(md5(SortedText(x.extensions)))
            && r.raw == r.hash[..1] + "_" + r.hash[1..3] + "_" + r.hash[3..4] + "_" + r.hash[4..6] + "_"
                        + r.hash[6..8] + "_" + r.hash[8..]
            && r.sni == x.sni
  {
    hide Filter, SortedText, TwoDigits, Join, VersionTag, Concat;
    AtoiTwoDigits(|Filter(x.ciphers)|);
    AtoiTwoDigits(|Filter(x.extensions)|);
    TagLength(x.version);
    var r, p := Ja4Of(x, md5).value, Ja4Parts(x, md5);
    var head := Ja4Head(x, |Filter(x.ciphers)|, |Filter(x.extensions)|);
    assert head == p[..6];
    assert r.raw == Join(p, '_') && r.hash == Concat(p[..6]) + "_" + p[6] + "_" + p[7];
    hide TruncatedHash;
    HashOfParts(p, r.hash);
    RawOfParts(p, r.hash);
    Cut12(md5(SortedText(x.ciphers)), SortedText(x.ciphers), md5);
    Cut12(md5(SortedText(x.extensions)), SortedText(x.extensions), md5);
    assert r.hash[0] == r.hash[..1][0] && r.hash[3] == r.hash[3..4][0];
  }

  lemma Cut12(h: string, text: string, md5: string -> string)
    requires h == md5(text)
    ensures TruncatedHash(text, 12, md5) == FirstTwelve(h)
  {}

  lemma TagLength(version: uint16)
    ensures |VersionTag(version)| == 2
  {}

  ghost predicate PartSizes(p: seq<string>) {
    |p| == 8 && |p[0]| == 1 && |p[1]| == 2 && |p[2]| == 1 && |p[3]| == 2 && |p[4]| == 2 && |p[5]| == 2
  }

  lemma HashOfParts(p: seq<string>, hash: string)
    requires PartSizes(p) && hash == Concat(p[..6]) + "_" + p[6] + "_" + p[7]
    ensures |hash| > 10 && hash[..1] == p[0] && hash[1..3] == p[1] && hash[3..4] == p[2]
    ensures hash[4..6] == p[3] && hash[6..8] == p[4] && hash[8..10] == p[5] && hash[10..] == "_" + p[6] + "_" + p[7]
    ensures hash[8..] == p[5] + "_" + p[6] + "_" + p[7]
  {
    ConcatSix(p[..6]);
    assert hash == p[0] + p[1] + p[2] + p[3] + p[4] + p[5] + ("_" + p[6] + "_" + p[7]);
  }

  lemma ConcatStep(p: seq<string>)
    requires p != []
    ensures Concat(p) == p[0] + Concat(p[1..])
  {}

  lemma ConcatSix(p: seq<string>)
    requires |p| == 6
    ensures Concat(p) == p[0] + p[1] + p[2] + p[3] + p[4] + p[5]
  {
    assert p[1..][1..] == p[2..] && p[2..][1..] == p[3..] && p[3..][1..] == p[4..] && p[4..][1..] == p[5..];
    assert p[5..] == [p[5]] && p[5..][1..] == [];
    ConcatStep(p);
    ConcatStep(p[1..]);
    ConcatStep(p[2..]);
    ConcatStep(p[3..]);
    ConcatStep(p[4..]);
    assert Concat(p[5..]) == p[5];
  }

  lemma RawOfParts(p: seq<string>, hash: string)
    requires PartSizes(p) && |hash| > 10 && hash[..1] == p[0] && hash[1..3] == p[1] && hash[3..4] == p[2]
    requires hash[4..6] == p[3] && hash[6..8] == p[4] && hash[8..] == p[5] + "_" + p[6] + "_" + p[7]
    ensures Join(p, '_') == hash[..1] + "_" + hash[1..3] + "_" + hash[3..4] + "_" + hash[4..6] + "_"
                            + hash[6..8] + "_" + hash[8..]
  {
    hide Join;
    var t := p[4..];
    JoinSplit(p, '_');
    JoinSplit(p[1..], '_');
    JoinSplit(p[2..], '_');
    JoinSplit(p[3..], '_');
    JoinSplit(p[4..], '_');
    assert p[1..][1..] == p[2..] && p[2..][1..] == p[3..] && p[3..][1..] == p[4..] && p[4..][1..] == p[5..];
    JoinLast(p[5..], '_');
    assert Join(p[5..], '_') == hash[8..];
    assert Join(p[3..], '_') == p[3] + "_" + (p[4] + "_" + hash[8..]);
    assert Join(p[1..], '_') == p[1] + "_" + (p[2] + "_" + Join(p[3..], '_'));
    assert Join(p, '_') == p[0] + "_" + Join(p[1..], '_');
  }

  lemma JoinLast(p: seq<string>, sep: char)
    requires |p| == 3
    ensures Join(p, sep) == p[0] + [sep] + p[1] + [sep] + p[2]
  {
    JoinSplit(p, sep);
    JoinSplit(p[1..], sep);
    assert p[1..][1..] == [p[2]];
    JoinOne(p[2], sep);
  }

  /** With hashes free of the separator and lists of at most 99 values, two inputs
      share the Hash of JA4 exactly when they agree on every tag, count and hash. */
  lemma Ja4HashExact(x: Ja4Input, y: Ja4Input, md5: string -> string)
    requires |x.alpn| != 1 && |Filter(x.ciphers)| < 100 && |Filter(x.extensions)| < 100
    requires |y.alpn| != 1 && |Filter(y.ciphers)| < 100 && |Filter(y.extensions)| < 100
    requires forall s: string :: '_' !in md5(s)
    ensures Ja4Of(x, md5).value.hash == Ja4Of(y, md5).value.hash <==> Ja4SameKey(x, y, md5)
  {
    Ja4Reads(x, md5);
    Ja4Reads(y, md5);
    Ja4RawExact(x, y, md5);
    var a, b := Ja4Of(x, md5).value, Ja4Of(y, md5).value;
    hide *;
    if a.raw == b.raw {
      SplitBack(a.raw, a.hash);
      SplitBack(b.raw, b.hash);
    }
  }

  /** The Hash text can be cut out of the Raw text. */
  lemma SplitBack(raw: string, hash: string)
    requires |hash| > 10
    requires raw == hash[..1] + "_" + hash[1..3] + "_" + hash[3..4] + "_" + hash[4..6] + "_" + hash[6..8] + "_" + hash[8..]
    ensures |raw| > 13 && hash == raw[..1] + raw[2..4] + raw[5..6] + raw[7..9] + raw[10..12] + raw[13..]
  {
    assert hash == hash[..1] + hash[1..3] + hash[3..4] + hash[4..6] + hash[6..8] + hash[8..];
    assert raw[..1] == hash[..1] && raw[2..4] == hash[1..3] && raw[5..6] == hash[3..4];
    assert raw[7..9] == hash[4..6] && raw[10..12] == hash[6..8] && raw[13..] == hash[8..];
  }

  lemma Ja4Canonical(x: Ja4Input, y: Ja4Input, md5: string -> string)
    requires Ja4Alike(x, y)
    ensures Ja4Of(x, md5) == Ja4Of(y, md5)
  {
    SortedTextExact(x.ciphers, y.ciphers);
    SortedTextExact(x.extensions, y.extensions);
    assert |Filter(x.ciphers)| == |multiset(Filter(x.ciphers))| == |Filter(y.ciphers)|;
    assert |Filter(x.extensions)| == |multiset(Filter(x.extensions))| == |Filter(y.extensions)|;
  }

  /** Shuffling either list, and then inserting GREASE anywhere in it, keeps the fingerprint. */
  lemma Ja4ShuffleAndGrease(x: Ja4Input, y: Ja4Input, c1: seq<uint16>, cg: seq<uint16>, c2: seq<uint16>,
                            e1: seq<uint16>, eg: seq<uint16>, e2: seq<uint16>, md5: string -> string)
    requires multiset(c1 + c2) == multiset(x.ciphers) && multiset(e1 + e2) == multiset(x.extensions)
    requires forall v :: v in cg + eg ==> IsGrease(v)
    requires y == x.(ciphers := c1 + cg + c2, extensions := e1 + eg + e2, sigAlgs := y.sigAlgs)
    ensures Ja4Of(y, md5) == Ja4Of(x, md5)
  {
    assert (forall v :: v in cg ==> v in cg + eg) && (forall v :: v in eg ==> v in cg + eg);
    GreaseInserted(c1, cg, c2);
    GreaseInserted(e1, eg, e2);
    FilterPermuted(c1 + c2, x.ciphers);
    FilterPermuted(e1 + e2, x.extensions);
    Ja4Canonical(y, x, md5);
  }
}
