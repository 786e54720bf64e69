# Verified models of the WAF, the tunnel and the API proxy

This project models the algorithmic core of three packages of the monorepo and
proves what that core promises.

- **mango-waf/fingerprint.** The TLS ClientHello parser, the HTTP/2 frame parser
  and the JA3/JA4 canonicalisation. The specification of the parsers is an
  *encoder* written from RFC 8446, RFC 6066, RFC 7301, RFC 8422 and RFC 7540; the
  results are round trips, exactness on arbitrary bytes, and invariance of the
  fingerprints under GREASE and reordering, first on lists and then on the wire.
- **mango-waf/perf, detection, core, cluster.** The token buckets, the adaptive
  rate limit, the upstream round robin with its health debouncing, the
  attack-mode debouncer, the ban table and its gossip. The results hold over all
  runs: admission bounds, isolation, fairness, windows, refinement of a log,
  origin and expiry of every ban in a mesh.
- **proxvn-tunnel.** The pending-request map of the server as a protocol of
  interleaved atomic steps, the TTL and LRU cache, and the UDP control codec.
- **auto-anti.** Account selection with sticky sessions, round robin and circuit
  breaker, and the stream transformers that re-emit Gemini and Anthropic events.

Each module that models code which updates state has the same three layers. A
method (of a class where the source has an object) takes the source's steps and
is proved to turn the old state into the new state given by a function or
relation on values. Lemmas about that function, over single calls and then over
whole runs, state what the code is for.

Promises that its names, comments or documentation suggest and the code does not
keep. Each has a lemma with failing inputs and one with the exact condition:

- A cipher-suite vector of odd length borrows the byte behind it, and reads past
  the slice exactly when it ends the body and the slice has no spare capacity
  (`TlsEncoding.OddCipherExample`, `TlsEncoding.OddCipherVector`).
- `JA4` panics on a one-byte ALPN name, and on no other well-formed hello
  (`WireFingerprint.ShortAlpnExample`, `WireFingerprint.CrashesOnShortAlpn`).
- A stream that carries its own end marker makes the client receive more than one
  `[DONE]` (`StreamTransform.DoneTwice`, `StreamTransform.DoneMarkers`), and text
  behind the last newline is lost (`StreamTransform.UnterminatedLineLost`,
  `StreamTransform.AllTextDelivered`).
- Two overlapping requests sharing an id can lose a response
  (`HttpPromises.SharedIdLosesResponse`, `HttpPromises.ResponseReaches`).
- The cache exceeds its size without limit when the key `""` is its oldest
  (`LruCache.EmptyKeyOverflows`, `LruCache.BoundExact`), and overwriting a key in a
  full cache evicts another (`LruCache.OverwriteEvicts`, `LruCache.RecentLostExact`).
- Sweeping idle rate-limit buckets admits more than burst, rate and bonus allow,
  unless five minutes refill the burst (`AdaptiveLimit.SweepBreaksBound`,
  `AdaptiveLimit.PlainBoundExact`).
- `BannedIPs` drifts by one with every lazy deletion (`BanTable.DriftExample`,
  `BanTable.CounterDrift`).
- `selectCachePriority` may wait for an account of another provider or with an open
  circuit (`AccountPolicy.WaitIgnoresProvider`, `AccountPolicy.IgnoredExactly`);
  `findSoonestAvailable` may find nothing because it reads the clock again
  (`AccountPolicy.ClockTickMissesAccount`, `AccountPolicy.NoneAvailable`), and may name
  an account that is not available soonest, when a rate limit outlasts an open circuit
  (`AccountPolicy.SoonestNotSoonest`, `AccountPolicy.ResetIsFirstMoment`); any late
  report, whether of a success, an error or a rate limit, re-enables a disabled
  account (`AccountPolicy.LateErrorExample`, `AccountPolicy.DisabledUntilReported`).
- UDP fields of 65536 bytes or more are written with a truncated length
  (`UdpCodec.LongKeyExample`, `UdpCodec.MessageRoundTrip`).

Two more points on wording: `isGREASE` accepts 256 values, of which RFC 8701
reserves 16 (`TlsParser.GreaseSuperset`), and all claims use the code's predicate;
the comments of `JA4` say SHA256 where the code uses MD5.

`dafny verify dfyconfig.toml` checks everything.

## Model

| member | source | states |
|---|---|---|
| Bytes.BigEndian | packages/mango-waf/fingerprint/tls_parser.go:85 | 16, 24 and 32-bit reads take the most significant byte first |
| Bytes.GetU16sAt | packages/mango-waf/fingerprint/tls_parser.go:92-95 | the i-th value of a pair list is made of bytes 2i and 2i+1 |
| TlsParser.GreaseSuperset | packages/mango-waf/fingerprint/fingerprint.go:83-86 | the mask test accepts exactly the values of the form 0xHaLa, and the RFC 8701 values are those with H == L |
| TlsParser.MaxVersion | packages/mango-waf/fingerprint/tls_parser.go:149-154 | the result bounds every non-GREASE version offered and is one of them, or 0 |
| TlsParser.HighestVersion | packages/mango-waf/fingerprint/tls_parser.go:149-154 | the scan over the offered versions returns that maximum |
| TlsParser.ParseServerName | packages/mango-waf/fingerprint/tls_parser.go:163-173 | equals the front-to-back reading inverted in ServerNameInverse, with every read in bounds |
| TlsParser.ParseU16List | packages/mango-waf/fingerprint/tls_parser.go:175-209 | the loop shared by groups and signature algorithms equals the front-to-back reading inverted in U16ListInverse, also when the list is cut short or of odd length |
| TlsParser.ParseECPointFormats | packages/mango-waf/fingerprint/tls_parser.go:187-197 | equals the reading inverted in PointFormatsInverse, also when cut short |
| TlsParser.ParseALPN | packages/mango-waf/fingerprint/tls_parser.go:211-228 | the offset loop equals the recursive reading of length-prefixed names inverted in AlpnInverse, stopping at the first name that does not fit |
| TlsParser.ReadName | packages/mango-waf/fingerprint/tls_parser.go:219-225 | one iteration takes one name off the front or ends the list, and the offset strictly grows |
| TlsParser.ParseSupportedVersions | packages/mango-waf/fingerprint/tls_parser.go:230-240 | equals the reading inverted in VersionsInverse |
| TlsParser.ReadExtension | packages/mango-waf/fingerprint/tls_parser.go:118-127 | the type, declared length and body handed to the sub-parser, the body cut by the end of the data only |
| TlsParser.RecordExtension | packages/mango-waf/fingerprint/tls_parser.go:122-142 | the switch appends the type and overwrites exactly the field of a recognised type |
| TlsParser.TakeExtension | packages/mango-waf/fingerprint/tls_parser.go:117-145 | one iteration leaves unchanged what the whole scan will yield, and the offset grows by at least four |
| TlsParser.ScanExtensions | packages/mango-waf/fingerprint/tls_parser.go:117-145 | the extension loop folds the switch over the extensions laid end to end in the block |
| TlsParser.RecordedIsGathered | packages/mango-waf/fingerprint/tls_parser.go:129-142 | folding the switch over the extensions gives the type list in order and, field by field, the last extension of each type |
| TlsParser.ParseExtensions | packages/mango-waf/fingerprint/tls_parser.go:105-160 | the clamped extension block and the version rule, as the fold over the extensions found |
| TlsParser.ParseCiphers | packages/mango-waf/fingerprint/tls_parser.go:92-95 | the suites are the byte pairs of the vector, an odd vector borrowing one byte; it overruns iff an odd vector ends the backing array |
| TlsParser.ParsePrelude | packages/mango-waf/fingerprint/tls_parser.go:61-104 | version, suites and extension offset, or which truncation is reported, for every input |
| TlsParser.ParseClientHelloBody | packages/mango-waf/fingerprint/tls_parser.go:61-161 | the outcome for every body and spare capacity is the one the theorems below are about |
| TlsParser.ParseFraming | packages/mango-waf/fingerprint/tls_parser.go:13-44 | record and handshake headers: the body length, or the first of six rejections that applies |
| TlsParser.ParseClientHello | packages/mango-waf/fingerprint/tls_parser.go:12-46 | the outcome for every input, the one RoundTrip inverts |
| TlsEncoding.ServerNameInverse | packages/mango-waf/fingerprint/tls_parser.go:163-173 | reading the body of RFC 6066, section 3, gives the host name back |
| TlsEncoding.U16ListInverse | packages/mango-waf/fingerprint/tls_parser.go:175-209 | reading the encoded group or signature-algorithm list gives the list back |
| TlsEncoding.PointFormatsInverse | packages/mango-waf/fingerprint/tls_parser.go:187-197 | reading the encoded point formats gives them back |
| TlsEncoding.AlpnInverse | packages/mango-waf/fingerprint/tls_parser.go:211-228 | reading the encoded protocol names of RFC 7301, section 3.1, gives the names back |
| TlsEncoding.VersionsInverse | packages/mango-waf/fingerprint/tls_parser.go:230-240 | reading the encoded supported versions gives them back |
| TlsEncoding.ExtsInverse | packages/mango-waf/fingerprint/tls_parser.go:117-145 | scanning an encoded extension block finds exactly its extensions, in order, with their bodies |
| TlsEncoding.LastBodyAt | packages/mango-waf/fingerprint/tls_parser.go:129-142 | with distinct types, each extension's own body is the one its field is read from |
| TlsEncoding.PreludeInverse | packages/mango-waf/fingerprint/tls_parser.go:61-104 | the prelude of an encoded hello yields its version, its suites and the offset of its extension block |
| TlsEncoding.FramingInverse | packages/mango-waf/fingerprint/tls_parser.go:12-46 | the two headers of an encoded record delimit exactly the encoded body, whatever follows |
| TlsEncoding.RoundTrip | packages/mango-waf/fingerprint/tls_parser.go:12-240 | parsing the RFC 8446 record of any well-formed hello with distinct extension types, encoded with the literal code points, gives back its suites, types in order, every recognised field (empty when absent), and the largest non-GREASE offered version, or the legacy one |
| TlsEncoding.TruncatedRecord | packages/mango-waf/fingerprint/tls_parser.go:13-26 | every proper prefix of an encoded record is rejected, as too short below five bytes and as incomplete above |
| TlsEncoding.TruncatedBody | packages/mango-waf/fingerprint/tls_parser.go:61-107 | a body cut anywhere before its extensions is rejected by the first part that is missing, or parsed as a hello without extensions if the compression length is still there |
| TlsEncoding.BodyAndMore | packages/mango-waf/fingerprint/tls_parser.go:105-145 | bytes behind the extension block, inside the declared body, change nothing |
| TlsEncoding.BlockAt | packages/mango-waf/fingerprint/tls_parser.go:109-115 | the declared length ends the block, or the data does if that comes first |
| TlsEncoding.FramingExact | packages/mango-waf/fingerprint/tls_parser.go:13-44 | for any bytes, when each of the six rejections applies, and otherwise the length of the hello, in terms of the bytes |
| TlsEncoding.U16ListAt | packages/mango-waf/fingerprint/tls_parser.go:175-209 | for any body, a list is cut by its declared length or by the end of the body, and holds the byte pairs by position |
| TlsEncoding.VersionsAt | packages/mango-waf/fingerprint/tls_parser.go:230-240 | the same for supported versions |
| TlsEncoding.BytesAt | packages/mango-waf/fingerprint/tls_parser.go:163-197 | for any body, point formats are cut short and a server name that does not fit is dropped |
| TlsEncoding.NamesExact | packages/mango-waf/fingerprint/tls_parser.go:211-228 | a list of names is the answer if and only if its encoding is a prefix, each name starts within the declared length, and the list stopped there or at a name that does not fit |
| TlsEncoding.ExtsExact | packages/mango-waf/fingerprint/tls_parser.go:117-145 | for arbitrary bytes, the extensions found re-encode to a prefix of the block: their bodies are in order, disjoint and inside the input, only the last can be cut, and fewer than four bytes are left over |
| TlsEncoding.HeadersInside | packages/mango-waf/fingerprint/tls_parser.go:117-120 | and each extension found has its header inside the declared block |
| TlsEncoding.ParsedMeans | packages/mango-waf/fingerprint/tls_parser.go:61-161 | for every body that parses, each field is what the last extension of its type says |
| TlsEncoding.OddCipherVector | packages/mango-waf/fingerprint/tls_parser.go:85-95 | the parser reads past its slice iff an odd vector ends a body without spare capacity; otherwise an odd vector yields one suite made with the byte behind it |
| TlsEncoding.OddCipherExample | packages/mango-waf/fingerprint/tls_parser.go:85-101 | a record that makes the parser panic, and is rejected as truncated with one byte of spare capacity |
| H2Parser.ParseH2Frames | packages/mango-waf/fingerprint/h2_parser.go:68-109 | the frame loop returns the frame sequence characterised by FramesExact, from behind the preface if it is there |
| H2Parser.ReadFrame | packages/mango-waf/fingerprint/h2_parser.go:79-92 | one iteration takes one whole frame off the front, or finds none |
| H2Parser.FramesExact | packages/mango-waf/fingerprint/h2_parser.go:78-106 | a frame list is the parser's answer if and only if its RFC 7540 encoding, for some reserved bits, is a prefix of the input and it stopped at the limit or at an incomplete frame |
| H2Parser.FramesExtend | packages/mango-waf/fingerprint/h2_parser.go:78-106 | appending input never changes the frames already found |
| H2Parser.UndecidedHasNoFrame | packages/mango-waf/fingerprint/h2_parser.go:72-88 | an input that is still a prefix of the preface yields no frame |
| H2Parser.PrefaceSpelled | packages/mango-waf/fingerprint/h2_parser.go:73 | the preface bytes are those of the text of RFC 7540, section 3.5 |
| H2Parser.ParseExtends | packages/mango-waf/fingerprint/h2_parser.go:68-109 | the same for the whole parser, even when the preface is completed by the appended bytes |
| H2Parser.FramesRoundTrip | packages/mango-waf/fingerprint/h2_parser.go:68-109 | up to twenty frames come back from their encoding, behind the preface or without it |
| H2Parser.ParseH2SettingsFrame | packages/mango-waf/fingerprint/h2_parser.go:112-120 | the offset loop returns the list characterised by SettingsExact |
| H2Parser.SettingsExact | packages/mango-waf/fingerprint/h2_parser.go:112-120 | a settings list is the answer if and only if its RFC 7540 encoding fills the payload up to fewer than six bytes |
| H2Parser.PriorityExact | packages/mango-waf/fingerprint/h2_parser.go:123-134 | a payload decodes to a priority if and only if it starts with that priority's encoding |
| Text.AtoiItoa | packages/mango-waf/fingerprint/fingerprint.go:91 | decimal printing of a number can be read back |
| Text.JoinInjective | packages/mango-waf/fingerprint/fingerprint.go:93 | joining non-empty lists of strings free of the separator is injective |
| Text.NumberListInjective | packages/mango-waf/fingerprint/fingerprint.go:88-94 | printed and joined number lists are equal if and only if the lists are |
| Sorting.OneSortedPermutation | packages/mango-waf/fingerprint/fingerprint.go:166 | a list has only one sorted permutation, so any in-place sort leaves the same list |
| Sorting.SortCanonical | packages/mango-waf/fingerprint/fingerprint.go:166-172 | two lists sort to the same list if and only if they are permutations of each other |
| Fingerprint.FilterGrease16 | packages/mango-waf/fingerprint/fingerprint.go:72-80 | the loop returns the filtered list that GreaseInserted and FilterPermuted are about |
| Fingerprint.GreaseInserted | packages/mango-waf/fingerprint/fingerprint.go:72-80 | GREASE inserted anywhere leaves the filtered list unchanged |
| Fingerprint.FilterPermuted | packages/mango-waf/fingerprint/fingerprint.go:72-80 | filtering permuted lists gives permuted lists |
| Fingerprint.JoinUint16 | packages/mango-waf/fingerprint/fingerprint.go:88-94 | the loop prints and joins the values |
| Fingerprint.JA3 | packages/mango-waf/fingerprint/fingerprint.go:23-69 | the result for every input, hash function and database, the one Ja3Exact is about |
| Fingerprint.Ja3Exact | packages/mango-waf/fingerprint/fingerprint.go:23-69 | two inputs share the Raw text, and the whole result, if and only if versions, GREASE-filtered suites, extensions and curves, and point formats all agree |
| Fingerprint.Ja3Reads | packages/mango-waf/fingerprint/fingerprint.go:27-68 | the Raw text is the five parts in order behind four commas, and hash, version and the database fields follow from it |
| Fingerprint.Ja3Example | packages/mango-waf/fingerprint/fingerprint.go:27-51 | one hello, spelled out |
| Fingerprint.SortSlice | packages/mango-waf/fingerprint/fingerprint.go:166 | the array ends sorted and a permutation of what it was |
| Fingerprint.SortedHash | packages/mango-waf/fingerprint/fingerprint.go:150-172 | filtering, counting after the filter, sorting in place and hashing gives the hash of the canonical text |
| Fingerprint.SortedTextExact | packages/mango-waf/fingerprint/fingerprint.go:166-172 | the hashed texts of two lists are equal if and only if their bags of non-GREASE values are |
| Fingerprint.SortedTextReads | packages/mango-waf/fingerprint/fingerprint.go:166-172 | the text hashed is the ascending list of the non-GREASE values, joined with commas |
| Fingerprint.VersionTagExact | packages/mango-waf/fingerprint/fingerprint.go:128-141 | which versions get which tag |
| Fingerprint.JA4 | packages/mango-waf/fingerprint/fingerprint.go:111-186 | the result for every input, or the panic on a one-byte ALPN name |
| Fingerprint.Ja4Reads | packages/mango-waf/fingerprint/fingerprint.go:111-194 | the Hash read back by position: protocol, version, SNI flag, both counts, ALPN, and the first twelve characters of both hashes; Raw holds the same parts, separated |
| Fingerprint.Tags | packages/mango-waf/fingerprint/fingerprint.go:117-163 | the six parts before the hashes, or the panic on a one-byte ALPN name |
| Fingerprint.Ja4RawExact | packages/mango-waf/fingerprint/fingerprint.go:111-182 | for any hash whose text holds no underscore, two inputs share the Raw text if and only if they agree on every tag, count and hash, whatever their ALPN names hold |
| Fingerprint.Ja4HashExact | packages/mango-waf/fingerprint/fingerprint.go:175-176 | for such a hash and at most 99 values a list, two inputs share the Hash text if and only if they agree on every tag, count and hash |
| Fingerprint.Ja4Canonical | packages/mango-waf/fingerprint/fingerprint.go:111-186 | inputs with the same bags of non-GREASE values, protocol, version, SNI and ALPN get the same result, whatever their signature algorithms |
| Fingerprint.Ja4ShuffleAndGrease | packages/mango-waf/fingerprint/fingerprint.go:111-186 | permuting suites and extensions and inserting GREASE into both never changes the fingerprint |
| WireFingerprint.FullFingerprintFromRaw | packages/mango-waf/fingerprint/tls_parser.go:271-286 | raw bytes to JA3, JA4 and server name, or the parse error, or the panic |
| WireFingerprint.FieldsReported | packages/mango-waf/fingerprint/tls_parser.go:243-268 | what the fingerprints see of an encoded hello is its own lists |
| WireFingerprint.HelloFingerprint | packages/mango-waf/fingerprint/tls_parser.go:243-286 | the fingerprint of an encoded hello is JA3 and JA4 of its own version, suites, types, groups, formats, name and first protocol |
| WireFingerprint.SettledByFiltered | packages/mango-waf/fingerprint/tls_parser.go:147-158 | the version used depends on the offered versions only through the non-GREASE ones |
| WireFingerprint.GreaseInvisible | packages/mango-waf/fingerprint/tls_parser.go:271-286 | two hellos that differ only in GREASE suites, extensions, groups and versions, sent in any records with anything behind them, get the same fingerprints |
| WireFingerprint.GreaseExample | packages/mango-waf/fingerprint/tls_parser.go:271-286 | two concrete hellos meet the hypotheses of GreaseInvisible, a GREASE suite, extension and version apart |
| WireFingerprint.CrashesOnShortAlpn | packages/mango-waf/fingerprint/fingerprint.go:158-163 | a well-formed hello is never rejected, and panics if and only if its first ALPN name has one byte |
| WireFingerprint.ShortAlpnExample | packages/mango-waf/fingerprint/fingerprint.go:158-163 | a well-formed hello offering the protocol "h" panics, whatever follows it |
| TokenBucket.Limit.constructor | packages/mango-waf/perf/pool.go:58-65 | a new bucket is full |
| TokenBucket.Limit.AllowN | packages/mango-waf/perf/pool.go:73-90 | refill, cap, then take if enough, as a step on the bucket value |
| TokenBucket.Limit.SetRate | packages/mango-waf/perf/pool.go:93-97 | changes the rate only |
| TokenBucket.IPRateLimiter.constructor | packages/mango-waf/perf/pool.go:108-116 | starts without buckets |
| TokenBucket.IPRateLimiter.Allow | packages/mango-waf/perf/pool.go:119-135 | one request is the step Admit on the map of bucket values, no two addresses sharing a bucket |
| TokenBucket.IPRateLimiter.SetGlobalRate | packages/mango-waf/perf/pool.go:138-142 | affects buckets created later only |
| TokenBucket.IPRateLimiter.Cleanup | packages/mango-waf/perf/pool.go:148-153 | clears the map exactly when it holds more than 10000 buckets |
| Refill.EnoughExact | packages/mango-waf/perf/pool.go:78-88 | a bucket that was full at first has enough for a cost if and only if no window that ends now forbids it |
| TokenBucket.TakeMeans | packages/mango-waf/perf/pool.go:77-89 | a grant takes its cost, a refusal nothing, and the time is noted either way |
| TokenBucket.AllowNExact | packages/mango-waf/perf/pool.go:58-90 | a call is granted if and only if granting it keeps every window that ends now, back to the bucket's creation, within its capacity plus what the rate yields |
| TokenBucket.GrantedExactly | packages/mango-waf/perf/pool.go:119-142 | over every run until the next clear, an address's k-th request is granted if and only if it fits every such window, at the rate in force at its first request |
| TokenBucket.BurstGranted | packages/mango-waf/perf/pool.go:119-135 | as many requests at one instant as the capacity holds are all granted |
| TokenBucket.ClearsExactly | packages/mango-waf/perf/pool.go:150-152 | the map is cleared as a whole, exactly above 10000 buckets |
| TokenBucket.RunSound | packages/mango-waf/perf/pool.go:73-155 | after every run in clock order, each bucket holds between 0 and its capacity |
| TokenBucket.GrantedWithin | packages/mango-waf/perf/pool.go:119-155 | from any sound state, an address is granted at most its credit, the rate times the time, and one burst per clear |
| TokenBucket.WindowBound | packages/mango-waf/perf/pool.go:108-155 | in any window of any run an address is granted at most (k+1) bursts plus the highest rate times the window, where k is the number of clears in the window |
| TokenBucket.Isolation | packages/mango-waf/perf/pool.go:119-135 | without a clear, an address gets exactly the answers it would get alone |
| TokenBucket.NeverRefused | packages/mango-waf/perf/pool.go:73-90 | with capacity at least 1, requests spaced so that the lowest rate yields a token are all granted, whatever others do and whenever the map is cleared |
| AdaptiveLimit.RateLimiter.CheckRateLimit | packages/mango-waf/detection/detection.go:179-220 | one call is the step Consume on the caller's bucket, all other buckets unchanged; nothing changes when disabled |
| AdaptiveLimit.RateLimiter.CleanupBuckets | packages/mango-waf/detection/detection.go:296-302 | keeps exactly the buckets used in the last five minutes |
| AdaptiveLimit.LowAndIdleExact | packages/mango-waf/detection/detection.go:206-208 | low traffic is adaptive mode and less than half of a known average; a bucket is kept for exactly 300 idle seconds |
| AdaptiveLimit.PassesExactly | packages/mango-waf/detection/detection.go:196-219 | a call is admitted if and only if it fits every window that ends now: burst, yield, and five for each bonus call in it |
| AdaptiveLimit.AdmittedExactly | packages/mango-waf/detection/detection.go:179-220 | the same over every run, from an address's first call until a sweep forgets it |
| AdaptiveLimit.CallInBounds | packages/mango-waf/detection/detection.go:196-219 | a call with the bonus is never limited, and every call leaves at most the burst plus four tokens |
| AdaptiveLimit.AlwaysInBounds | packages/mango-waf/detection/detection.go:179-220 | between the calls of any run each bucket holds between 0 and the burst plus four tokens |
| AdaptiveLimit.AdmissionsBounded | packages/mango-waf/detection/detection.go:179-220 | from any reachable state, admissions are at most the stock, the rate times the time, five per bonus call and a burst per forgotten bucket |
| AdaptiveLimit.TotalAdmissions | packages/mango-waf/detection/detection.go:179-303 | over every run, with or without sweeps: burst, rate times elapsed time, five per bonus call, and a burst per bucket a sweep forgot |
| AdaptiveLimit.BoundWithoutSweeps | packages/mango-waf/detection/detection.go:179-220 | without a sweep the last term falls away: burst, rate times elapsed time, five per bonus call |
| AdaptiveLimit.SweepBreaksBound | packages/mango-waf/detection/detection.go:296-302 | if 300 times the rate is below the burst, a run with one sweep admits twice the burst, breaks the three-term bound, and is answered differently without the sweep |
| AdaptiveLimit.PlainBoundExact | packages/mango-waf/detection/detection.go:179-303 | the three-term bound holds of every run, and sweeping never changes an answer, if and only if 300 times the rate is at least the burst |
| AdaptiveLimit.SweepsInvisible | packages/mango-waf/detection/detection.go:296-302 | if five minutes refill a burst, sweeping idle buckets never changes an answer from any state in bounds; the converse is in PlainBoundExact |
| Upstream.UpstreamPool.GetNext | packages/mango-waf/core/upstream.go:96-116 | returns the backend Pick names and moves the index behind it, or fails and leaves the index |
| Upstream.FailsIffAllDead | packages/mango-waf/core/upstream.go:103-115 | a call fails if and only if no backend is alive |
| Upstream.FirstAlive | packages/mango-waf/core/upstream.go:104-113 | the first alive backend the wrapping scan meets is the head of the cycle of alive backends |
| Upstream.PickExact | packages/mango-waf/core/upstream.go:103-113 | the index picked is the alive one least far ahead of the current one, wrapping around |
| Upstream.CycleTurns | packages/mango-waf/core/upstream.go:110 | a pick turns the cycle of alive backends by one |
| Upstream.PicksFollowCycle | packages/mango-waf/core/upstream.go:103-113 | successive calls walk along the cycle |
| Upstream.EachAliveOnce | packages/mango-waf/core/upstream.go:103-115 | with m backends alive, any m consecutive calls return each of them exactly once, from any index |
| Upstream.UpstreamPool.Check | packages/mango-waf/core/upstream.go:150-181 | one probe moves one backend's health as AfterProbe says: an unparsable URL is skipped, 500, 502 and 504 count as failures, 503 and 501 do not |
| Upstream.UpstreamPool.RunHealthChecks | packages/mango-waf/core/upstream.go:148-182 | every backend moves by its own probe and by no other |
| Upstream.AliveIffShortRun | packages/mango-waf/core/upstream.go:157-181 | over every sequence of probes a backend is alive if and only if its current run of failures (no connection, 500, 502 or 504) is shorter than three |
| StreamTransform.Transformer.OnData | packages/auto-anti/src/protocolHandlers.ts:411-450 | a chunk emits the writes of the lines it completes and keeps the unfinished one |
| StreamTransform.Transformer.OnGeminiLine | packages/auto-anti/src/protocolHandlers.ts:416-449 | the writes a Gemini line calls for, text that does not parse calling for none |
| StreamTransform.Transformer.OnAnthropicLine | packages/auto-anti/src/protocolHandlers.ts:474-502 | the writes an Anthropic line calls for |
| StreamTransform.Transformer.OnEnd | packages/auto-anti/src/protocolHandlers.ts:452-455 | normal completion adds [DONE] and ends |
| StreamTransform.Transformer.OnError | packages/auto-anti/src/protocolHandlers.ts:457-459 | an upstream error ends without writing |
| StreamTransform.Transformer.Serve | packages/auto-anti/src/protocolHandlers.ts:405-513 | serving all chunks and then the end writes exactly the session SessionOfText is about |
| StreamTransform.Transformer.ServeUntilError | packages/auto-anti/src/protocolHandlers.ts:411-459 | a session that breaks off has sent what its complete lines call for, without a final [DONE] |
| StreamTransform.DataExact | packages/auto-anti/src/protocolHandlers.ts:417-418 | a data line starts with "data: ", blank included, and its payload is the trimmed rest |
| StreamTransform.LineExact | packages/auto-anti/src/protocolHandlers.ts:417-501 | for both dialects a line writes its text first, if any, then the stop chunk if it finishes, then the end marker if it closes |
| StreamTransform.TrimExact | packages/auto-anti/src/protocolHandlers.ts:418 | trimming takes white space off both ends, and all of it |
| StreamTransform.LinesExact | packages/auto-anti/src/protocolHandlers.ts:413-414 | a list of lines and a rest are the split of a text if and only if they glue back to it and hold no newline |
| StreamTransform.LinesCarry | packages/auto-anti/src/protocolHandlers.ts:411-414 | splitting a text anywhere and carrying the unfinished line over gives the same lines |
| StreamTransform.SessionOfText | packages/auto-anti/src/protocolHandlers.ts:405-513 | a session is what the complete lines of the whole text call for, then [DONE] |
| StreamTransform.ChunkingIrrelevant | packages/auto-anti/src/protocolHandlers.ts:405-513 | two ways to cut the same upstream text give the client the same writes |
| StreamTransform.SessionText | packages/auto-anti/src/protocolHandlers.ts:405-513 | the deltas joined are the texts of the newline-terminated events in order |
| StreamTransform.UnterminatedLineLost | packages/auto-anti/src/protocolHandlers.ts:414 | whatever follows the last newline changes nothing the client receives |
| StreamTransform.AllTextDelivered | packages/auto-anti/src/protocolHandlers.ts:405-513 | the text of every event is delivered if and only if what follows the last newline carries none |
| StreamTransform.DoneMarkers | packages/auto-anti/src/protocolHandlers.ts:419-455 | a session ends with [DONE] and carries one more for every upstream line that closes |
| StreamTransform.StopMarkers | packages/auto-anti/src/protocolHandlers.ts:436-499 | a session has one stop chunk for each finishing event, each directly before a [DONE] |
| StreamTransform.TextBeforeDone | packages/auto-anti/src/protocolHandlers.ts:405-513 | a client that stops at the first [DONE] has the texts of all lines up to and including the first closing one |
| StreamTransform.DoneTwice | packages/auto-anti/src/protocolHandlers.ts:419-455 | a Gemini stream holding just its end marker makes the client receive two, however it is cut |
| StreamTransform.LinesOfStream | packages/auto-anti/src/protocolHandlers.ts:413-417 | a stream of data lines and blank lines splits back into exactly those lines |
| StreamTransform.StreamDelivered | packages/auto-anti/src/protocolHandlers.ts:405-513 | every event of a well-formed stream reaches the client in order, however the stream is cut |
| HttpCorrelation.TunnelServer.RegisterRequest | packages/proxvn-tunnel/src/backend/cmd/server/http_handler.go:28-34 | the locked registration is the step Register |
| HttpCorrelation.TunnelServer.Encode | packages/proxvn-tunnel/src/backend/cmd/server/http_handler.go:53-55 | sending, or failing to send, is the step Send or FailSend |
| HttpCorrelation.TunnelServer.SelectResponse | packages/proxvn-tunnel/src/backend/cmd/server/http_handler.go:59-60 | receiving returns the message in the waiter's own slot |
| HttpCorrelation.TunnelServer.SelectGiveUp | packages/proxvn-tunnel/src/backend/cmd/server/http_handler.go:61-64 | timeout and disconnect leave with their own result |
| HttpCorrelation.TunnelServer.Unregister | packages/proxvn-tunnel/src/backend/cmd/server/http_handler.go:37-41 | the deferred cleanup removes the id, then the waiter has returned |
| HttpCorrelation.TunnelServer.ClaimResponse | packages/proxvn-tunnel/src/backend/cmd/server/http_handler.go:149-160 | lookup and delete hand the channel to one handler; an unknown id changes nothing |
| HttpCorrelation.TunnelServer.TrySend | packages/proxvn-tunnel/src/backend/cmd/server/http_handler.go:168-171 | the non-blocking send stores the response if and only if the slot is free |
| HttpRuns.StepKeeps | packages/proxvn-tunnel/src/backend/cmd/server/http_handler.go:27-172 | every step of every goroutine keeps the invariant linking table, waiters and handlers to the fate of each waiter, whatever ids are used |
| HttpRuns.Reachable | packages/proxvn-tunnel/src/backend/cmd/server/http_handler.go:27-172 | the invariant holds in every interleaving, with no condition on the ids |
| HttpRuns.TableIsHolder | packages/proxvn-tunnel/src/backend/cmd/server/http_handler.go:32-41 | in every run an id's table entry is the waiter of the last step naming it, if that step is a registration |
| HttpPromises.FateByFirst | packages/proxvn-tunnel/src/backend/cmd/server/http_handler.go:27-172 | a waiter is answered, closed or displaced by the first step that names its id after its own registration |
| HttpPromises.ResponseReaches | packages/proxvn-tunnel/src/backend/cmd/server/http_handler.go:149-160 | a response is handed to a waiter if and only if no other registration, response or cleanup named its id since it registered |
| HttpPromises.GotFirstAnswer | packages/proxvn-tunnel/src/backend/cmd/server/http_handler.go:57-60 | in every run a waiter that returns a response returns one for its own id, the first step naming that id since it registered |
| HttpPromises.ClaimedNeverDropped | packages/proxvn-tunnel/src/backend/cmd/server/http_handler.go:168-171 | in every run a claimed response finds its slot free, so the default branch never drops it |
| HttpPromises.LateResponseIgnored | packages/proxvn-tunnel/src/backend/cmd/server/http_handler.go:150-160 | in every run a returned waiter is in no entry; and if nobody registered its id since, the id is absent and a response naming it changes nothing |
| HttpPromises.NoLostWakeup | packages/proxvn-tunnel/src/backend/cmd/server/http_handler.go:57-66 | in every run a waiting waiter whose answer no handler still carries has it in its slot |
| HttpPromises.ResultByStep | packages/proxvn-tunnel/src/backend/cmd/server/http_handler.go:53-65 | over every run each result comes from its own step and no other: send failure, timeout, disconnect or a response received |
| HttpPromises.WaitingByStep | packages/proxvn-tunnel/src/backend/cmd/server/http_handler.go:37-66 | a waiter waits exactly between its send and its result, never if its send failed, and has returned exactly when its cleanup has run |
| HttpPromises.OfferExact | packages/proxvn-tunnel/src/backend/cmd/server/http_handler.go:168-171 | the non-blocking send fills a free slot, never overwrites a taken one, and touches no other waiter |
| HttpPromises.ExclusiveNeverDisplaced | packages/proxvn-tunnel/src/backend/cmd/server/http_handler.go:27-41 | if an id is registered only while no waiter that has not returned uses it, no waiter is ever displaced; ids may be used again later |
| HttpPromises.SharingLoses | packages/proxvn-tunnel/src/backend/cmd/server/http_handler.go:37-41 | if a waiting waiter shares the id of one whose response is still to come, its timeout and cleanup displace that one, and the response is then unknown |
| HttpPromises.SharedIdLosesResponse | packages/proxvn-tunnel/src/backend/cmd/server/http_handler.go:37-41 | the smallest run in which the first waiter's cleanup makes the second's response unknown; the exact condition is in ResponseReaches |
| LruCache.Cache.constructor | packages/proxvn-tunnel/src/backend/internal/cache/cache.go:26-38 | starts empty with its size and lifetime |
| LruCache.Cache.Get | packages/proxvn-tunnel/src/backend/internal/cache/cache.go:41-60 | returns the unexpired value or a miss, and stamps a hit |
| LruCache.Cache.Set | packages/proxvn-tunnel/src/backend/internal/cache/cache.go:63-78 | evicts first when at capacity, then stores with a fresh lifetime |
| LruCache.Cache.Delete | packages/proxvn-tunnel/src/backend/internal/cache/cache.go:81-85 | removes that key and no other |
| LruCache.Cache.Clear | packages/proxvn-tunnel/src/backend/internal/cache/cache.go:88-92 | removes everything |
| LruCache.Cache.EvictLRU | packages/proxvn-tunnel/src/backend/internal/cache/cache.go:113-129 | in whatever order the map is visited, removes an item of least access time, unless its key is empty |
| LruCache.Cache.Cleanup | packages/proxvn-tunnel/src/backend/internal/cache/cache.go:139-146 | keeps exactly the unexpired items, in whatever order the map is visited |
| LruCache.RunFaithful | packages/proxvn-tunnel/src/backend/internal/cache/cache.go:41-151 | over every run each item held is the last Set of its key, stamped with its last touch and its hits since |
| LruCache.HitIsLastSet | packages/proxvn-tunnel/src/backend/internal/cache/cache.go:41-60 | a hit returns the last value Set and not after its lifetime |
| LruCache.KeptExactly | packages/proxvn-tunnel/src/backend/internal/cache/cache.go:41-60 | a Get never changes which keys are held, and a cleanup keeps exactly the items unexpired at its time |
| LruCache.SizeBounded | packages/proxvn-tunnel/src/backend/internal/cache/cache.go:63-78 | with non-empty keys the cache never holds more than maxSize items |
| LruCache.SetGrows | packages/proxvn-tunnel/src/backend/internal/cache/cache.go:63-129 | one Set grows the cache if and only if the key is new and there is room or "" is the oldest key; from within the bound it exceeds it if and only if the cache is full, the key new and "" the oldest key |
| LruCache.BoundExact | packages/proxvn-tunnel/src/backend/internal/cache/cache.go:63-129 | a run keeps within maxSize throughout if and only if no Set of a new key meets a full cache whose oldest key is "" |
| LruCache.EmptyKeyOverflows | packages/proxvn-tunnel/src/backend/internal/cache/cache.go:126-128 | for every maxSize and every n, n Sets of distinct keys starting with "" leave n items |
| LruCache.TouchTimesDiffer | packages/proxvn-tunnel/src/backend/internal/cache/cache.go:56-75 | under a strictly increasing clock two keys never share a last-touch time |
| LruCache.RecentNotEvicted | packages/proxvn-tunnel/src/backend/internal/cache/cache.go:66-129 | an evicted key has at least maxSize-1 keys touched more recently, so none of the maxSize-1 most recent is ever the victim |
| LruCache.RecentLostExact | packages/proxvn-tunnel/src/backend/internal/cache/cache.go:63-129 | a Set evicts one of the maxSize most recently touched keys if and only if it overwrites a key of a full cache that is not its oldest, the oldest is not "", and all keys touched since that one are held; never when the key is not in the cache |
| LruCache.OverwriteEvicts | packages/proxvn-tunnel/src/backend/internal/cache/cache.go:67-70 | the smallest run in which overwriting loses one of the maxSize most recent keys |
| LruCache.Retained | packages/proxvn-tunnel/src/backend/internal/cache/cache.go:41-151 | a touched key stays held while it is not deleted, its lifetime lasts, and at most maxSize-2 other keys are touched |
| LruCache.RetainedHit | packages/proxvn-tunnel/src/backend/internal/cache/cache.go:41-151 | and a Get of it then hits with the last value Set |
| BanTable.Pipeline.IsBanned | packages/mango-waf/core/pipeline.go:593-604 | answers whether the entry is unexpired and drops an expired one |
| BanTable.Pipeline.BanIP | packages/mango-waf/core/pipeline.go:669-674 | sets the expiry from now, counting only addresses not in the table |
| BanTable.Pipeline.CleanupBans | packages/mango-waf/core/pipeline.go:706-718 | removes exactly the expired entries and uncounts each, in any order of the visit |
| BanTable.TableRefinesLog | packages/mango-waf/core/pipeline.go:593-718 | over every run each entry is the last ban of its address, and a missing entry means that ban is over |
| BanTable.BannedIffLogged | packages/mango-waf/core/pipeline.go:593-604 | isBanned answers true if and only if the expiry set by the last ban is not before now, whatever deletions happened between |
| BanTable.CleanupExact | packages/mango-waf/core/pipeline.go:706-718 | after a cleanup exactly the unexpired entries are left, unchanged |
| BanTable.CounterDrift | packages/mango-waf/core/pipeline.go:593-718 | BannedIPs equals the table size plus the number of lazy deletions made by isBanned |
| BanTable.DriftExample | packages/mango-waf/core/pipeline.go:593-718 | a ban looked up after its end leaves an empty table and a count of one |
| Gossip.MeshNode.BanIPLocal | packages/mango-waf/core/pipeline.go:651-661 | bans here and queues one message |
| Gossip.MeshNode.BroadcastBan | packages/mango-waf/cluster/gossip.go:169-189 | queues the ban under this node's name with the time in whole seconds |
| Gossip.MeshNode.NotifyMsg | packages/mango-waf/cluster/gossip.go:51-66 | installs a ban that is named, foreign and at most 60 seconds old, queues nothing, and ignores every other |
| Gossip.LocalSound | packages/mango-waf/core/pipeline.go:651-661 | a local ban keeps the mesh invariant, extending the record of bans |
| Gossip.DeliverSound | packages/mango-waf/cluster/gossip.go:51-66 | delivering any queued message to any node, at any time, keeps the mesh invariant |
| Gossip.RunSound | packages/mango-waf/cluster/gossip.go:51-189 | over all runs of a mesh with distinct names each queue is exactly the node's own bans in order, and each table entry traces to a ban some node made and expires before SentAt + 61s + duration |
| Gossip.EventuallyUnbanned | packages/mango-waf/cluster/gossip.go:51-66 | 61 seconds after every ban of an address has ended no node bans it: gossip cannot keep a ban alive |
| Gossip.DeliveredExactly | packages/mango-waf/cluster/gossip.go:51-66 | in every reachable state a message of a named address from another node, at most 60 whole seconds old, bans the address on the receiver from now for exactly its duration, and any other changes nothing |
| Gossip.LocalExactly | packages/mango-waf/core/pipeline.go:651-661 | a local ban bans for exactly its duration and queues one message in whole seconds |
| AccountManager.Manager.FilterAvailable | packages/auto-anti/src/accountManager.ts:77-83 | lists exactly the available accounts, in order |
| AccountManager.Manager.Find | packages/auto-anti/src/accountManager.ts:109-112 | the first listed account with the id, or none |
| AccountManager.Manager.FindLeastUsed | packages/auto-anti/src/accountManager.ts:165-168 | the least recently used of the list, the earliest of equals |
| AccountManager.Manager.FindSoonestAvailable | packages/auto-anti/src/accountManager.ts:173-196 | the scan returns the account SoonestIsMinimal characterises |
| AccountManager.Manager.FindFixed | packages/auto-anti/src/accountManager.ts:71-74 | the first enabled account with the fixed id, or none |
| AccountManager.Manager.FindKept | packages/auto-anti/src/accountManager.ts:106-120 | the session's own account if available or, in cachePriority, worth waiting for |
| AccountManager.Manager.PickSticky | packages/auto-anti/src/accountManager.ts:105-149 | keeps the bound account or binds the session to the least used, no other session changing |
| AccountManager.Manager.SelectAccount | packages/auto-anti/src/accountManager.ts:67-100 | the account and the new state for every mode, the step the policy lemmas are about |
| AccountManager.ProxyAccount.Succeed | packages/auto-anti/src/accountManager.ts:204-211 | the account after a success |
| AccountManager.ProxyAccount.Limit | packages/auto-anti/src/accountManager.ts:220-224 | the account after a 429 |
| AccountManager.ProxyAccount.Fail | packages/auto-anti/src/accountManager.ts:233-248 | the account after an error, the breaker level capped at four and every backoff index in range |
| AccountManager.Manager.ReportSuccess | packages/auto-anti/src/accountManager.ts:201-212 | changes the first account with the id and no other |
| AccountManager.Manager.ReportRateLimit | packages/auto-anti/src/accountManager.ts:217-225 | changes the first account with the id and no other |
| AccountManager.Manager.ReportError | packages/auto-anti/src/accountManager.ts:230-249 | changes the first account with the id and no other |
| AccountManager.Manager.AddAccount | packages/auto-anti/src/accountManager.ts:268-270 | appends the account |
| AccountManager.Manager.ClearSessions | packages/auto-anti/src/accountManager.ts:261-263 | drops every binding |
| AccountManager.Manager.FilterOut | packages/auto-anti/src/accountManager.ts:276 | keeps the accounts with other ids, in order |
| AccountManager.Manager.DropSessions | packages/auto-anti/src/accountManager.ts:278-282 | drops exactly the bindings to the id, in whatever order they are visited |
| AccountManager.Manager.RemoveAccount | packages/auto-anti/src/accountManager.ts:275-283 | the state RemovedLeavesNothing is about |
| AccountPolicy.AvailabilityExact | packages/auto-anti/src/accountManager.ts:77-83 | availability, the circuit and the reset time in the account's own fields |
| AccountPolicy.FixedExactly | packages/auto-anti/src/accountManager.ts:70-74 | fixed-account mode returns the first enabled account with the fixed id, whatever its provider, circuit or limits, and changes nothing |
| AccountPolicy.UnboundChoice | packages/auto-anti/src/accountManager.ts:97-98 | an unknown mode takes the first available account, and a sticky mode without a session the least recently used; neither changes anything |
| AccountPolicy.SelectsAvailable | packages/auto-anti/src/accountManager.ts:67-129 | outside fixed-account mode with some account available, the one selected is unavailable if and only if the mode is cachePriority, the session is bound, no available account carries the bound id and the first account with it is rate limited with a wait in (0, maxWaitSeconds]; and then it is that account |
| AccountPolicy.IgnoredExactly | packages/auto-anti/src/accountManager.ts:112-118 | the provider, or an open circuit, is ignored if and only if the call waits and the session's own account is of another provider, or has an open circuit |
| AccountPolicy.WaitIgnoresProvider | packages/auto-anti/src/accountManager.ts:112-118 | a state where the account selected is of another provider and has an open circuit |
| AccountPolicy.SoonestIsMinimal | packages/auto-anti/src/accountManager.ts:173-196 | null if and only if no enabled account of the provider is held back; otherwise the one of least reset time, the earliest of equals |
| AccountPolicy.ResetIsFirstMoment | packages/auto-anti/src/accountManager.ts:182-187 | the reset time is the first moment an account is available, if and only if no rate limit outlasts its open circuit |
| AccountPolicy.SoonestNotSoonest | packages/auto-anti/src/accountManager.ts:182-192 | two held-back accounts of which the one named becomes available later |
| AccountPolicy.NoneAvailable | packages/auto-anti/src/accountManager.ts:85-88 | with nothing available, selection returns that account |
| AccountPolicy.SameInstant | packages/auto-anti/src/accountManager.ts:85-88 | if both clock reads agree, null if and only if there is no enabled account of the provider |
| AccountPolicy.ClockTickMissesAccount | packages/auto-anti/src/accountManager.ts:173-189 | if the clock moves between the reads the only account can be missed |
| AccountPolicy.PerformanceRotates | packages/auto-anti/src/accountManager.ts:154-160 | in performance mode the selections of a run rotate over the available accounts, whatever reports, additions and removals come between, as long as each finds the same accounts available |
| AccountPolicy.RoundsFromWithin | packages/auto-anti/src/accountManager.ts:156-158 | the rotating index walks to the end of the list and starts over |
| AccountPolicy.EachExactlyOnce | packages/auto-anti/src/accountManager.ts:154-160 | n selections of such a run that find the same n accounts available return each exactly once, from any index |
| AccountPolicy.BoundGetsOwn | packages/auto-anti/src/accountManager.ts:105-149 | a bound session whose account is available gets it and nothing changes |
| AccountPolicy.RebindsToLeastUsed | packages/auto-anti/src/accountManager.ts:121-147 | a session that is unbound, or whose account is neither available nor worth waiting for, is bound to the least recently used available account, the earliest of equals, the other sessions keeping theirs |
| AccountPolicy.ClearedForgets | packages/auto-anti/src/accountManager.ts:261-263 | after the bindings are cleared every session is served as a new one |
| AccountPolicy.SessionKeepsAccount | packages/auto-anti/src/accountManager.ts:67-149 | over every run of calls by anyone a bound session keeps its account while it is available when asked for |
| AccountPolicy.QuotaErrorBacksOff | packages/auto-anti/src/accountManager.ts:238-245 | a quota error holds the account back until exactly the backoff of its new level has passed |
| AccountPolicy.SuccessesCloseCircuit | packages/auto-anti/src/accountManager.ts:208-211 | n successes leave the circuit open if and only if it was open and n is below its level |
| AccountPolicy.RateLimitHoldsBack | packages/auto-anti/src/accountManager.ts:217-225 | a 429 holds the account back until exactly its reset time, one minute if none was given |
| AccountPolicy.ReportsAddUp | packages/auto-anti/src/accountManager.ts:201-249 | over every run an account counts exactly the reports on its id, its errors and its streak of failures, and bears the time and status of the last report; without a report it does not change |
| AccountPolicy.CircuitUntouched | packages/auto-anti/src/accountManager.ts:217-249 | a 429, or an error that is not a quota error with the breaker on, leaves the circuit alone |
| AccountPolicy.ReportedGoesLast | packages/auto-anti/src/accountManager.ts:165-168 | the account just reported on is the most recently used, so a new session gets another one while another is available |
| AccountPolicy.RemovedLeavesNothing | packages/auto-anti/src/accountManager.ts:275-283 | exactly the accounts with other ids are left, in order and multiplicity, and exactly the sessions bound to other ids, with their bindings |
| AccountPolicy.AccountAfter | packages/auto-anti/src/accountManager.ts:67-283 | the account an id names is changed by reports on that id and by nothing else short of removing it |
| AccountPolicy.DisabledUntilReported | packages/auto-anti/src/accountManager.ts:201-249 | over every run that does not remove it, a disabled account is still disabled at the end if and only if no success, error or rate limit was reported for it |
| AccountPolicy.LateReportReenables | packages/auto-anti/src/accountManager.ts:201-249 | when each kind of late report makes a disabled account available: a success or plain error at once unless its circuit is open, a 429 from its reset time |
| AccountPolicy.LateErrorExample | packages/auto-anti/src/accountManager.ts:230-249 | a late plain error makes the only, disabled, account selectable |
| AttackDetector.Shield.Tick | packages/mango-waf/core/server.go:419-447 | one tick is the step of the detector |
| AttackDetector.DetectorIsWindow | packages/mango-waf/core/server.go:419-447 | over every sample sequence attack mode is on if and only if one of the last ten samples exceeded the threshold, AttacksDetected counts the rising edges, and AttackStartTime is that of the last one |
| UdpCodec.Copy | packages/proxvn-tunnel/src/backend/cmd/client/main.go:1281-1289 | writes the bytes at the offset and nothing else |
| UdpCodec.WriteField | packages/proxvn-tunnel/src/backend/cmd/client/main.go:1280-1287 | writes a length-prefixed field at the offset and nothing else |
| UdpCodec.BuildUDPMessage | packages/proxvn-tunnel/src/backend/cmd/client/main.go:1270-1291 | the buffer filled step by step is exactly the message the round trips are about |
| UdpCodec.FieldLayout | packages/proxvn-tunnel/src/backend/cmd/client/main.go:1280-1284 | a field is its length modulo 65536, most significant byte first, and its bytes |
| UdpCodec.MessageLayout | packages/proxvn-tunnel/src/backend/cmd/client/main.go:1270-1291 | short messages byte by byte: type, key, id unless the type is 1, payload |
| UdpCodec.DecodeField | packages/proxvn-tunnel/src/backend/cmd/client/main.go:1258-1268 | on any packet and offset, fails if and only if the field does not fit; on success the next offset is in range and the field is what lies between |
| UdpCodec.HandleUDPControlPacket | packages/proxvn-tunnel/src/backend/cmd/client/main.go:779-829 | the action for every packet, the one DispatchOfMessage is about |
| UdpCodec.FieldRoundTrip | packages/proxvn-tunnel/src/backend/cmd/client/main.go:1258-1291 | a field and what follows it come back if and only if it is shorter than 65536 bytes |
| UdpCodec.MessageRoundTrip | packages/proxvn-tunnel/src/backend/cmd/client/main.go:1258-1291 | type, key, id and payload come back if and only if the fields written are shorter than 65536 bytes, the handshake carrying no id |
| UdpCodec.LongKeyExample | packages/proxvn-tunnel/src/backend/cmd/client/main.go:1279-1281 | a key of 65536 zero bytes comes back as an empty key, an empty id and a payload |
| UdpCodec.MessageInjective | packages/proxvn-tunnel/src/backend/cmd/client/main.go:1270-1291 | messages whose written fields are shorter than 65536 bytes have the same bytes only if they have the same parts |
| UdpCodec.DispatchOfMessage | packages/proxvn-tunnel/src/backend/cmd/client/main.go:779-829 | the receiver of a built message does what the message says if and only if they share a non-empty key |
| UdpCodec.OnlyMessagesAct | packages/proxvn-tunnel/src/backend/cmd/client/main.go:779-829 | any packet the receiver acts on is a built message under its own key |

## Left out

- `Fingerprint.Ja4Canonical`: only this direction holds, because the fingerprint carries two hashes cut to 12 characters and folds unknown versions together; what it does tell apart is stated both ways by `Fingerprint.Ja4HashExact`, `Fingerprint.Ja4RawExact` and `Fingerprint.SortedTextExact`.
- `Fingerprint.SortSlice`: `sort.Slice` is library code, so an insertion sort stands for any in-place sort; callers rely on the sorted permutation alone.
- `WireFingerprint.FullFingerprintFromRaw`: the parsed hello that the source returns beside the fingerprints is not repeated in the result.
- `TlsParser.ParseClientHello`: error texts are names; nil and empty slices are one value.
- `TokenBucket.IPRateLimiter.Allow`: the lookup and the bucket call are one step; a clear between them is not modelled. Tokens and seconds are reals, so float rounding is not modelled.
- `LruCache.Cache.Get`: the two clock reads are one, and a hit's update, which the source makes under a read lock, is atomic.
- `BanTable.Pipeline.IsBanned`: load and delete are one step, as are the two writes of banIP; a concurrent ban between them is not modelled.
- `Gossip.MeshNode.NotifyMsg`: alert messages, payloads that are not JSON, and a node without handler are not modelled; clocks of all nodes are one clock.
- `HttpCorrelation.TunnelServer.SelectResponse`: which of several ready cases Go's select takes is open, and each is a step; the 30 seconds are not counted.
- `Upstream.UpstreamPool.GetNext`: one given pool; choosing a pool by host substring depends on map order, and both of its errors are one.
- `StreamTransform.Transformer.OnData`: chunks are character strings, so a chunk boundary inside a multi-byte character is not modelled; JSON parsing is any function from text to an optional event; ids, times and the model name are left out of the chunks.
- `AccountManager.Manager.SelectAccount`: the name, key and boundAt fields, configure and getStatus play no part in selection.
- `AttackDetector.Shield.Tick`: alerts, logging and the duration reported at the end of an attack.
- `UdpCodec.HandleUDPControlPacket`: the action is returned, not carried out; sessions, retries and encryption are not modelled.
- Wrap-around of 64-bit counters: counters are unbounded.
- Hash functions: MD5 is any function from text to text.
- ExtractH2Fingerprint, the known-fingerprint databases, RecordRPSSample and percentile: lookups and statistics without a promise beyond their bodies.
- XDP, ipset and whitelist handling around the ban table, the HTTP and TLS servers, sockets, tickers and goroutine scheduling: environment steps.
- Scoring, bot signatures, WAF rules, dashboards, the job tables and all user interface code: lookups and one-branch facts.
