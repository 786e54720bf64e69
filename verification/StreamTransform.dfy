/**
 The Gemini and Anthropic to OpenAI stream transformers of
 auto-anti/src/protocolHandlers.ts. JSON parsing is a total function from line
 text to an optional event; ids, timestamps and the model name are left out of
 the chunks written.
 */
module StreamTransform {
  import opened Text
  import opened Wrappers

  /** A parsed Gemini message: `text` is "" when absent, as in the code. */
  datatype GeminiEvent = GeminiEvent(text: string, finished: bool)

  /** A parsed Anthropic message. */
  datatype AnthropicEvent = AnthropicEvent(kind: string, text: string)

  /** None stands for text whose handling throws, which the code swallows. */
  datatype Dialect =
    | Gemini(readGemini: string -> Option<GeminiEvent>)
    | Anthropic(readAnthropic: string -> Option<AnthropicEvent>)

  /** What the client is sent: a delta, the chunk with finish_reason "stop", or [DONE]. */
  datatype Write = Delta(content: string) | Stop | Done

  // ------------------------------------------------------------------
  // One line
  // ------------------------------------------------------------------

  /** The characters String.prototype.trim removes. */
  predicate White(c: char) {
    || c in {' ', '\t', '\n', '\r', '\U{000B}', '\U{000C}', '\U{00A0}', '\U{1680}',
             '\U{2028}', '\U{2029}', '\U{202F}', '\U{205F}', '\U{3000}', '\U{FEFF}'}
    || '\U{2000}' <= c <= '\U{200A}'
  }

  function TrimStart(s: string): string {
    if s != "" && White(s[0]) then TrimStart(s[1..]) else s
  }

  function TrimEnd(s: string): string {
    if s != "" && White(s[|s| - 1]) then TrimEnd(s[..|s| - 1]) else s
  }

  function Trim(s: string): string {
    TrimEnd(TrimStart(s))
  }

  /** Below 128: the space and the five control characters from tab to carriage return. */
  lemma WhiteAscii(c: char)
    requires c < '\U{0080}'
    ensures White(c) <==> c == ' ' || '\t' <= c <= '\r'
  {}

  lemma {:induction false} TrimStartExact(s: string)
    ensures var r := TrimStart(s);
            && |r| <= |s| && r == s[|s| - |r|..] && (r != "" ==> !White(r[0]))
            && forall i :: 0 <= i < |s| - |r| ==> White(s[i])
  {
    hide White;
    if s != "" && White(s[0]) {
      var r := TrimStart(s[1..]);
      TrimStartExact(s[1..]);
      assert TrimStart(s) == r;
      hide TrimStart;
      assert s[1..][|s| - 1 - |r|..] == s[|s| - |r|..];
      assert forall i :: 1 <= i < |s| ==> s[i] == s[1..][i - 1];
    }
  }

  lemma {:induction false} TrimEndExact(s: string)
    ensures var r := TrimEnd(s);
            && r <= s && (r != "" ==> !White(r[|r| - 1]))
            && forall i :: |r| <= i < |s| ==> White(s[i])
    decreases |s|
  {
    hide White;
    if s != "" && White(s[|s| - 1]) {
      TrimEndExact(s[..|s| - 1]);
    }
  }

  /** Trimming takes white space off both ends, and all of it. */
  lemma TrimExact(s: string) returns (i: nat)
    ensures var r := Trim(s);
            && i + |r| <= |s| && r == s[i..i + |r|]
            && (forall j :: 0 <= j < i || i + |r| <= j < |s| ==> White(s[j]))
            && (r != "" ==> !White(r[0]) && !White(r[|r| - 1]))
  {
    hide White;
    var t := TrimStart(s);
    TrimStartExact(s);
    TrimEndExact(t);
    i := |s| - |t|;
    assert forall j :: i + |Trim(s)| <= j < |s| ==> s[j] == t[j - i];
  }

  const DATA: string := "data: "

  /** The payload of a data line. */
  function DataOf(line: string): Option<string> {
    if DATA <= line then Some(Trim(line[|DATA|..])) else None
  }

  /** A data line starts with "data: ", blank included; its payload is the trimmed rest. */
  lemma DataExact(line: string, rest: string)
    ensures DataOf(line).Some? <==> "data: " <= line
    ensures DataOf("data: " + rest) == Some(Trim(rest))
  {
    assert ("data: " + rest)[6..] == rest;
  }

  function GeminiWrites(data: string, read: string -> Option<GeminiEvent>): seq<Write> {
    if data == "" || data == "[DONE]" then [Done]
    else
      match read(data)
      case None => []
      case Some(e) =>
        (if e.text != "" then [Delta(e.text)] else []) + (if e.finished then [Stop, Done] else [])
  }

  function AnthropicWrites(data: string, read: string -> Option<AnthropicEvent>): seq<Write> {
    if data == "" then []
    else
      match read(data)
      case None => []
      case Some(e) =>
        if e.kind == "content_block_delta" && e.text != "" then [Delta(e.text)]
        else if e.kind == "message_stop" then [Stop, Done]
        else []
  }

  function LineWrites(d: Dialect, line: string): seq<Write> {
    match DataOf(line)
    case None => []
    case Some(data) =>
      match d
      case Gemini(read) => GeminiWrites(data, read)
      case Anthropic(read) => AnthropicWrites(data, read)
  }

  // ------------------------------------------------------------------
  // A whole text
  // ------------------------------------------------------------------

  /** The newline-terminated lines of a text, and what follows the last newline. */
  function Lines(text: string): (r: (seq<string>, string))
    ensures forall l :: l in r.0 ==> '\n' !in l
    ensures '\n' !in r.1
    decreases |text|
  {
    if '\n' !in text then ([], text)
    else
      var n := Break(text);
      var later := Lines(text[n + 1..]);
      ([text[..n]] + later.0, later.1)
  }

  /** The first newline. */
  function Break(text: string): (n: nat)
    requires '\n' in text
    ensures n < |text| && text[n] == '\n' && '\n' !in text[..n]
  {
    if text[0] == '\n' then 0 else 1 + Break(text[1..])
  }

  function AllWrites(d: Dialect, lines: seq<string>): seq<Write> {
    if lines == [] then [] else LineWrites(d, lines[0]) + AllWrites(d, lines[1..])
  }

  // ------------------------------------------------------------------
  // The transformer
  // ------------------------------------------------------------------

  class Transformer {
    const dialect: Dialect
    var buffer: string
    var written: seq<Write>
    var ended: bool

    constructor (dialect: Dialect)
      ensures this.dialect == dialect && buffer == "" && written == [] && !ended
    {
      this.dialect := dialect;
      buffer, written, ended := "", [], false;
    }

    /** The 'data' handler. */
    method OnData(chunk: string)
      modifies this
      ensures written == old(written) + AllWrites(dialect, Lines(old(buffer) + chunk).0)
      ensures buffer == Lines(old(buffer) + chunk).1 && ended == old(ended)
    {
      hide LineWrites, Lines;
      buffer := buffer + chunk;
      var split := Lines(buffer);
      var lines := split.0;
      buffer := split.1;
      var i := 0;
      while i < |lines|
        invariant 0 <= i <= |lines|
        invariant written + AllWrites(dialect, lines[i..]) == old(written) + AllWrites(dialect, lines)
        invariant buffer == split.1 && ended == old(ended)
      {
        ghost var before := written;
        match dialect {
          case Gemini(read) => OnGeminiLine(lines[i], read);
          case Anthropic(read) => OnAnthropicLine(lines[i], read);
        }
        assert lines[i..][1..] == lines[i + 1..];
        assert written + AllWrites(dialect, lines[i + 1..]) == before + AllWrites(dialect, lines[i..]);
        i := i + 1;
      }
      assert lines[|lines|..] == [];
    }

    method OnGeminiLine(line: string, read: string -> Option<GeminiEvent>)
      modifies this`written
      ensures written == old(written) + LineWrites(Gemini(read), line)
    {
      if DATA <= line {
        var data := Trim(line[|DATA|..]);
        if data == "" || data == "[DONE]" {
          written := written + [Done];
          return;
        }
        var event := read(data);
        if event.Some? {
          var text := event.value.text;
          if text != "" { written := written + [Delta(text)]; }
          if event.value.finished {
            written := written + [Stop];
            written := written + [Done];
          }
        }
      }
    }

    method OnAnthropicLine(line: string, read: string -> Option<AnthropicEvent>)
      modifies this`written
      ensures written == old(written) + LineWrites(Anthropic(read), line)
    {
      if DATA <= line {
        var data := Trim(line[|DATA|..]);
        if data == "" { return; }
        var event := read(data);
        if event.Some? {
          if event.value.kind == "content_block_delta" && event.value.text != "" {
            written := written + [Delta(event.value.text)];
          } else if event.value.kind == "message_stop" {
            written := written + [Stop];
            written := written + [Done];
          }
        }
      }
    }

    /** The 'end' handler. */
    method OnEnd()
      modifies this
      ensures written == old(written) + [Done] && ended && buffer == old(buffer)
    {
      written := written + [Done];
      ended := true;
    }

    /** The 'error' handler. */
    method OnError()
      modifies this
      ensures written == old(written) && ended && buffer == old(buffer)
    {
      ended := true;
    }

    /** A session that breaks off: every chunk in turn, then 'error'. */
    method ServeUntilError(chunks: seq<string>)
      requires buffer == "" && written == []
      modifies this
      ensures written == AllWrites(dialect, Lines(Concat(chunks)).0) && ended
    {
      var i := 0;
      while i < |chunks|
        invariant 0 <= i <= |chunks|
        invariant Feed(dialect, [], "", chunks) == Feed(dialect, written, buffer, chunks[i..])
      {
        assert chunks[i..][1..] == chunks[i + 1..];
        OnData(chunks[i]);
        i := i + 1;
      }
      assert chunks[|chunks|..] == [];
      OnError();
      BrokenSession(dialect, chunks);
    }

    /** A normal session: every chunk in turn, then 'end'. */
    method Serve(chunks: seq<string>)
      requires buffer == "" && written == []
      modifies this
      ensures written == Session(dialect, chunks) && ended
    {
      var i := 0;
      while i < |chunks|
        invariant 0 <= i <= |chunks|
        invariant Feed(dialect, [], "", chunks) == Feed(dialect, written, buffer, chunks[i..])
      {
        assert chunks[i..][1..] == chunks[i + 1..];
        OnData(chunks[i]);
        i := i + 1;
      }
      assert chunks[|chunks|..] == [];
      OnEnd();
    }
  }

  /** The writes after each chunk in turn has been handled. */
  function Feed(d: Dialect, written: seq<Write>, buffer: string, chunks: seq<string>): seq<Write>
    decreases |chunks|
  {
    if chunks == [] then written
    else
      var split := Lines(buffer + chunks[0]);
      Feed(d, written + AllWrites(d, split.0), split.1, chunks[1..])
  }

  function Session(d: Dialect, chunks: seq<string>): seq<Write> {
    Feed(d, [], "", chunks) + [Done]
  }

  // ------------------------------------------------------------------
  // Chunking does not matter
  // ------------------------------------------------------------------

  lemma {:induction false} AllWritesAppend(d: Dialect, a: seq<string>, b: seq<string>)
    ensures AllWrites(d, a + b) == AllWrites(d, a) + AllWrites(d, b)
    decreases |a|
  {
    hide LineWrites;
    if a == [] {
      assert a + b == b;
    } else {
      assert (a + b)[1..] == a[1..] + b;
      AllWritesAppend(d, a[1..], b);
    }
  }

  lemma Unbroken(s: string)
    requires '\n' !in s
    ensures Lines(s) == ([], s)
  {}

  lemma LinesStep(text: string, n: nat)
    requires n < |text| && text[n] == '\n' && '\n' !in text[..n]
    ensures var later := Lines(text[n + 1..]);
            Lines(text) == ([text[..n]] + later.0, later.1)
  {
    BreakFirst(text, n);
  }

  function Glued(lines: seq<string>): string {
    if lines == [] then "" else lines[0] + "\n" + Glued(lines[1..])
  }

  /** The only way to cut a text into newline-terminated lines and a rest. */
  lemma {:induction false} LinesExact(text: string, lines: seq<string>, rest: string)
    ensures Lines(text) == (lines, rest) <==>
            && text == Glued(lines) + rest && '\n' !in rest && forall l :: l in lines ==> '\n' !in l
    decreases |text|, |lines|
  {
    if Lines(text) == (lines, rest) {
      GluedBack(text);
    }
    if text == Glued(lines) + rest && '\n' !in rest && forall l :: l in lines ==> '\n' !in l {
      LinesOfGlued(lines, rest);
    }
  }

  lemma {:induction false} GluedBack(text: string)
    ensures Glued(Lines(text).0) + Lines(text).1 == text
    decreases |text|
  {
    hide Lines;
    if '\n' in text {
      var n := Break(text);
      var later := Lines(text[n + 1..]);
      GluedBack(text[n + 1..]);
      LinesStep(text, n);
      assert ([text[..n]] + later.0)[1..] == later.0;
      assert text == text[..n] + "\n" + text[n + 1..];
    } else {
      Unbroken(text);
    }
  }

  lemma {:induction false} LinesOfGlued(lines: seq<string>, rest: string)
    requires '\n' !in rest && forall l :: l in lines ==> '\n' !in l
    ensures Lines(Glued(lines) + rest) == (lines, rest)
  {
    hide Lines;
    if lines == [] {
      assert Glued(lines) + rest == rest;
      Unbroken(rest);
    } else {
      var l, text := lines[0], Glued(lines) + rest;
      assert l in lines;
      assert text == l + "\n" + (Glued(lines[1..]) + rest);
      assert text[..|l|] == l && text[|l| + 1..] == Glued(lines[1..]) + rest;
      LinesStep(text, |l|);
      LinesOfGlued(lines[1..], rest);
      assert lines == [l] + lines[1..];
    }
  }

  /** Splitting a text in two and carrying the unfinished line over. */
  lemma {:induction false} LinesCarry(a: string, b: string)
    ensures var (la, ra) := Lines(a);
            var (lb, rb) := Lines(ra + b);
            Lines(a + b) == (la + lb, rb)
    decreases |a|
  {
    hide Lines;
    if '\n' !in a {
      Unbroken(a);
      assert [] + Lines(a + b).0 == Lines(a + b).0;
    } else {
      var n := Break(a);
      LinesStep(a, n);
      assert (a + b)[..n] == a[..n] && (a + b)[n + 1..] == a[n + 1..] + b;
      LinesStep(a + b, n);
      LinesCarry(a[n + 1..], b);
      var (la, ra) := Lines(a[n + 1..]);
      assert [a[..n]] + (la + Lines(ra + b).0) == ([a[..n]] + la) + Lines(ra + b).0;
    }
  }

  lemma {:induction false} BreakFirst(text: string, n: nat)
    requires n < |text| && text[n] == '\n' && '\n' !in text[..n]
    ensures '\n' in text && Break(text) == n
    decreases n
  {
    assert text[n] in text;
    if n > 0 {
      assert text[..n][0] == text[0];
      assert text[1..][..n - 1] == text[..n][1..];
      BreakFirst(text[1..], n - 1);
    }
  }

  lemma {:induction false} FeedIsOnePass(d: Dialect, written: seq<Write>, buffer: string, chunks: seq<string>)
    requires '\n' !in buffer
    ensures Feed(d, written, buffer, chunks) == written + AllWrites(d, Lines(buffer + Concat(chunks)).0)
    decreases |chunks|
  {
    hide Lines, LineWrites;
    if chunks == [] {
      assert buffer + Concat(chunks) == buffer;
      Unbroken(buffer);
    } else {
      var (lines, rest) := Lines(buffer + chunks[0]);
      var later := Concat(chunks[1..]);
      FeedIsOnePass(d, written + AllWrites(d, lines), rest, chunks[1..]);
      LinesCarry(buffer + chunks[0], later);
      assert buffer + Concat(chunks) == buffer + chunks[0] + later;
      AllWritesAppend(d, lines, Lines(rest + later).0);
      assert written + (AllWrites(d, lines) + AllWrites(d, Lines(rest + later).0))
          == written + AllWrites(d, lines) + AllWrites(d, Lines(rest + later).0);
    }
  }

  /** A session depends on the upstream text only, not on where it was cut: the
      client receives what each complete line calls for, then [DONE]. */
  lemma SessionOfText(d: Dialect, chunks: seq<string>)
    ensures Session(d, chunks) == AllWrites(d, Lines(Concat(chunks)).0) + [Done]
  {
    hide Feed, AllWrites, Lines, Concat;
    FeedIsOnePass(d, [], "", chunks);
    assert "" + Concat(chunks) == Concat(chunks);
    assert [] + AllWrites(d, Lines(Concat(chunks)).0) == AllWrites(d, Lines(Concat(chunks)).0);
  }

  /** A session that breaks off has sent what each complete line calls for, and no more. */
  lemma BrokenSession(d: Dialect, chunks: seq<string>)
    ensures Feed(d, [], "", chunks) == AllWrites(d, Lines(Concat(chunks)).0)
  {
    hide Feed, AllWrites, Lines, Concat;
    FeedIsOnePass(d, [], "", chunks);
    assert "" + Concat(chunks) == Concat(chunks);
    assert [] + AllWrites(d, Lines(Concat(chunks)).0) == AllWrites(d, Lines(Concat(chunks)).0);
  }

  lemma ChunkingIrrelevant(d: Dialect, a: seq<string>, b: seq<string>)
    requires Concat(a) == Concat(b)
    ensures Session(d, a) == Session(d, b)
  {
    SessionOfText(d, a);
    SessionOfText(d, b);
  }

  // ------------------------------------------------------------------
  // What the client can reassemble
  // ------------------------------------------------------------------

  /** All delta contents, joined. */
  function Contents(ws: seq<Write>): string {
    if ws == [] then ""
    else (match ws[0] case Delta(content) => content case _ => "") + Contents(ws[1..])
  }

  /** The text carried by the event on a line, "" if there is none. */
  function EventText(d: Dialect, line: string): string {
    match DataOf(line)
    case None => ""
    case Some(data) =>
      match d
      case Gemini(read) =>
        if data == "" || data == "[DONE]" || read(data).None? then "" else read(data).value.text
      case Anthropic(read) =>
        if data == "" || read(data).None? || read(data).value.kind != "content_block_delta" then ""
        else read(data).value.text
  }

  function Texts(d: Dialect, lines: seq<string>): string {
    if lines == [] then "" else EventText(d, lines[0]) + Texts(d, lines[1..])
  }

  lemma {:induction false} ContentsAppend(a: seq<Write>, b: seq<Write>)
    ensures Contents(a + b) == Contents(a) + Contents(b)
    decreases |a|
  {
    if a == [] {
      assert a + b == b;
    } else {
      assert (a + b)[1..] == a[1..] + b;
      ContentsAppend(a[1..], b);
    }
  }

  /** The lists of writes a line can produce. */
  lemma ShortLists(text: string)
    ensures Contents([Done]) == "" && Contents([Stop, Done]) == "" && Contents([Delta(text)]) == text
    ensures Contents([Delta(text)] + [Stop, Done]) == text
    ensures Dones([Done]) == 1 && Dones([Stop, Done]) == 1 && Dones([Delta(text)]) == 0
    ensures Dones([Delta(text)] + [Stop, Done]) == 1
  {
    assert [Stop, Done][1..] == [Done] && [Delta(text)][1..] == [];
    assert ([Delta(text)] + [Stop, Done])[1..] == [Stop, Done];
  }

  lemma LineContents(d: Dialect, line: string)
    ensures Contents(LineWrites(d, line)) == EventText(d, line)
  {
    ShortLists(EventText(d, line));
    assert forall ws: seq<Write> :: ws + [] == ws && [] + ws == ws;
  }

  lemma {:induction false} TextPreserved(d: Dialect, lines: seq<string>)
    ensures Contents(AllWrites(d, lines)) == Texts(d, lines)
    decreases |lines|
  {
    if lines != [] {
      hide LineWrites, EventText;
      LineContents(d, lines[0]);
      TextPreserved(d, lines[1..]);
      ContentsAppend(LineWrites(d, lines[0]), AllWrites(d, lines[1..]));
      assert Contents(AllWrites(d, lines)) == Texts(d, lines);
    }
  }

  /** The deltas of a session, joined, are the texts of the newline-terminated
      events in order; what follows the last newline is lost. */
  lemma SessionText(d: Dialect, chunks: seq<string>)
    ensures Contents(Session(d, chunks)) == Texts(d, Lines(Concat(chunks)).0)
  {
    var lines := Lines(Concat(chunks)).0;
    SessionOfText(d, chunks);
    TextPreserved(d, lines);
    ContentsAppend(AllWrites(d, lines), [Done]);
  }

  /** An unterminated last line changes nothing the client receives. */
  lemma UnterminatedLineLost(d: Dialect, text: string, tail: string)
    requires '\n' !in tail
    ensures Session(d, [text + "\n" + tail]) == Session(d, [text + "\n"])
  {
    hide Session, AllWrites, Lines;
    var whole := text + "\n";
    SessionOfText(d, [whole + tail]);
    SessionOfText(d, [whole]);
    assert Concat([whole + tail]) == whole + tail && Concat([whole]) == whole;
    NothingPending(text);
    LinesCarry(whole, tail);
    assert "" + tail == tail;
    Unbroken(tail);
    assert Lines(whole).0 + [] == Lines(whole).0;
  }

  lemma {:induction false} TextsAppend(d: Dialect, a: seq<string>, b: seq<string>)
    ensures Texts(d, a + b) == Texts(d, a) + Texts(d, b)
    decreases |a|
  {
    hide EventText;
    if a == [] {
      assert a + b == b;
    } else {
      assert (a + b)[1..] == a[1..] + b;
      TextsAppend(d, a[1..], b);
    }
  }

  /** Every event's text is delivered if and only if the rest behind the last
      newline carries none. */
  lemma AllTextDelivered(d: Dialect, chunks: seq<string>)
    ensures var (lines, rest) := Lines(Concat(chunks));
            Contents(Session(d, chunks)) == Texts(d, lines + [rest]) <==> EventText(d, rest) == ""
  {
    hide Session, Lines, EventText, Concat;
    var (lines, rest) := Lines(Concat(chunks));
    SessionText(d, chunks);
    TextsAppend(d, lines, [rest]);
    assert [rest][1..] == [];
    assert Texts(d, [rest]) == EventText(d, rest) + Texts(d, []);
    assert |Texts(d, lines + [rest])| == |Texts(d, lines)| + |EventText(d, rest)|;
  }

  lemma NothingPending(text: string)
    ensures Lines(text + "\n").1 == ""
  {
    var rest := Lines(text).1;
    LinesCarry(text, "\n");
    LinesStep(rest + "\n", |rest|);
    assert (rest + "\n")[|rest| + 1..] == "";
  }

  // ------------------------------------------------------------------
  // How many [DONE] markers
  // ------------------------------------------------------------------

  function Dones(ws: seq<Write>): nat {
    if ws == [] then 0 else (if ws[0].Done? then 1 else 0) + Dones(ws[1..])
  }

  /** The lines that make a transformer send [DONE] before the stream ends. */
  predicate Closing(d: Dialect, line: string) {
    match DataOf(line)
    case None => false
    case Some(data) =>
      match d
      case Gemini(read) => data == "" || data == "[DONE]" || (read(data).Some? && read(data).value.finished)
      case Anthropic(read) => data != "" && read(data).Some? && read(data).value.kind == "message_stop"
  }

  function ClosingLines(d: Dialect, lines: seq<string>): nat {
    if lines == [] then 0 else (if Closing(d, lines[0]) then 1 else 0) + ClosingLines(d, lines[1..])
  }

  lemma {:induction false} DonesAppend(a: seq<Write>, b: seq<Write>)
    ensures Dones(a + b) == Dones(a) + Dones(b)
    decreases |a|
  {
    if a == [] {
      assert a + b == b;
    } else {
      assert (a + b)[1..] == a[1..] + b;
      DonesAppend(a[1..], b);
    }
  }

  lemma LineDones(d: Dialect, line: string)
    ensures Dones(LineWrites(d, line)) == if Closing(d, line) then 1 else 0
  {
    ShortLists(EventText(d, line));
    assert forall ws: seq<Write> :: ws + [] == ws && [] + ws == ws;
  }

  lemma {:induction false} AllDones(d: Dialect, lines: seq<string>)
    ensures Dones(AllWrites(d, lines)) == ClosingLines(d, lines)
    decreases |lines|
  {
    if lines != [] {
      hide LineWrites, Closing;
      LineDones(d, lines[0]);
      AllDones(d, lines[1..]);
      DonesAppend(LineWrites(d, lines[0]), AllWrites(d, lines[1..]));
      assert Dones(AllWrites(d, lines)) == ClosingLines(d, lines);
    }
  }

  /** A normal session ends with [DONE], and sends one more for every closing
      line: exactly one in all if and only if no upstream line closes. */
  lemma DoneMarkers(d: Dialect, chunks: seq<string>)
    ensures var ws := Session(d, chunks);
            ws != [] && ws[|ws| - 1] == Done && Dones(ws) == ClosingLines(d, Lines(Concat(chunks)).0) + 1
  {
    SessionOfText(d, chunks);
    AllDones(d, Lines(Concat(chunks)).0);
    DonesAppend(AllWrites(d, Lines(Concat(chunks)).0), [Done]);
  }

  // ------------------------------------------------------------------
  // In what order
  // ------------------------------------------------------------------

  /** The line carries the event that finishes the answer. */
  predicate Finishing(d: Dialect, line: string) {
    match DataOf(line)
    case None => false
    case Some(data) =>
      match d
      case Gemini(read) => data != "" && data != "[DONE]" && read(data).Some? && read(data).value.finished
      case Anthropic(read) => data != "" && read(data).Some? && read(data).value.kind == "message_stop"
  }

  /** A line writes its text first, if it has any, and then, if it closes, the stop
      chunk of a finishing event and the end marker. */
  lemma LineExact(d: Dialect, line: string)
    ensures LineWrites(d, line) ==
            (if EventText(d, line) != "" then [Delta(EventText(d, line))] else [])
            + (if Finishing(d, line) then [Stop] else []) + (if Closing(d, line) then [Done] else [])
  {
    assert forall ws: seq<Write> :: ws + [] == ws && [] + ws == ws;
    assert forall w: Write :: [w] + [Stop] + [Done] == [w] + [Stop, Done];
    assert [Stop] + [Done] == [Stop, Done];
  }

  /** What a client sees that stops reading at the first end marker. */
  function BeforeDone(ws: seq<Write>): seq<Write> {
    if ws == [] || ws[0].Done? then [] else [ws[0]] + BeforeDone(ws[1..])
  }

  function UpToClosing(d: Dialect, lines: seq<string>): seq<string> {
    if lines == [] then []
    else if Closing(d, lines[0]) then [lines[0]]
    else [lines[0]] + UpToClosing(d, lines[1..])
  }

  lemma {:induction false} BeforeDoneAppend(a: seq<Write>, b: seq<Write>)
    ensures BeforeDone(a + b) == if Dones(a) > 0 then BeforeDone(a) else a + BeforeDone(b)
    decreases |a|
  {
    if a == [] {
      assert a + b == b;
    } else {
      assert (a + b)[1..] == a[1..] + b;
      BeforeDoneAppend(a[1..], b);
      assert [a[0]] + (a[1..] + BeforeDone(b)) == a + BeforeDone(b);
    }
  }

  lemma LineBeforeDone(d: Dialect, line: string)
    requires Closing(d, line)
    ensures Contents(BeforeDone(LineWrites(d, line))) == EventText(d, line)
  {
    LineExact(d, line);
    var text := EventText(d, line);
    hide LineWrites, EventText;
    var delta := if text != "" then [Delta(text)] else [];
    var stop := if Finishing(d, line) then [Stop] else [];
    assert BeforeDone([Done]) == [];
    assert stop == [Stop] ==> stop[1..] == [];
    assert delta != [] ==> delta[1..] == [];
    assert Dones(stop) == 0 && Dones(delta) == 0 && Contents(stop) == "" && Contents(delta) == text;
    BeforeDoneAppend(stop, [Done]);
    BeforeDoneAppend(delta, stop + [Done]);
    assert delta + stop + [Done] == delta + (stop + [Done]);
    ContentsAppend(delta, stop);
    assert stop + [] == stop;
  }

  lemma {:induction false} AllBeforeDone(d: Dialect, lines: seq<string>)
    ensures Contents(BeforeDone(AllWrites(d, lines) + [Done])) == Texts(d, UpToClosing(d, lines))
    decreases |lines|
  {
    hide LineWrites, EventText, Closing;
    if lines == [] {
      assert AllWrites(d, lines) + [Done] == [Done];
    } else {
      var ws, later := LineWrites(d, lines[0]), AllWrites(d, lines[1..]) + [Done];
      assert AllWrites(d, lines) + [Done] == ws + later;
      LineDones(d, lines[0]);
      BeforeDoneAppend(ws, later);
      if Closing(d, lines[0]) {
        LineBeforeDone(d, lines[0]);
        assert [lines[0]][1..] == [];
        assert Texts(d, [lines[0]]) == EventText(d, lines[0]) + "";
      } else {
        LineContents(d, lines[0]);
        AllBeforeDone(d, lines[1..]);
        ContentsAppend(ws, BeforeDone(later));
        assert ([lines[0]] + UpToClosing(d, lines[1..]))[1..] == UpToClosing(d, lines[1..]);
      }
    }
  }

  /** A client that stops at the first [DONE] has the texts of all lines up to and
      including the first closing one. */
  lemma TextBeforeDone(d: Dialect, chunks: seq<string>)
    ensures Contents(BeforeDone(Session(d, chunks))) == Texts(d, UpToClosing(d, Lines(Concat(chunks)).0))
  {
    SessionOfText(d, chunks);
    AllBeforeDone(d, Lines(Concat(chunks)).0);
  }

  function Stops(ws: seq<Write>): nat {
    if ws == [] then 0 else (if ws[0].Stop? then 1 else 0) + Stops(ws[1..])
  }

  function FinishingLines(d: Dialect, lines: seq<string>): nat {
    if lines == [] then 0 else (if Finishing(d, lines[0]) then 1 else 0) + FinishingLines(d, lines[1..])
  }

  predicate StopThenDone(ws: seq<Write>) {
    forall i :: 0 <= i < |ws| && ws[i].Stop? ==> i + 1 < |ws| && ws[i + 1].Done?
  }

  lemma {:induction false} StopsAppend(a: seq<Write>, b: seq<Write>)
    ensures Stops(a + b) == Stops(a) + Stops(b)
    ensures StopThenDone(a) && StopThenDone(b) ==> StopThenDone(a + b)
    decreases |a|
  {
    if a == [] {
      assert a + b == b;
    } else {
      assert (a + b)[1..] == a[1..] + b;
      StopsOfTail(a[1..], b);
    }
  }

  lemma {:induction false} StopsOfTail(a: seq<Write>, b: seq<Write>)
    ensures Stops(a + b) == Stops(a) + Stops(b)
    decreases |a|
  {
    if a == [] {
      assert a + b == b;
    } else {
      assert (a + b)[1..] == a[1..] + b;
      StopsOfTail(a[1..], b);
    }
  }

  lemma LineStops(d: Dialect, line: string)
    ensures Stops(LineWrites(d, line)) == (if Finishing(d, line) then 1 else 0) && StopThenDone(LineWrites(d, line))
  {
    LineExact(d, line);
    var text := EventText(d, line);
    assert Finishing(d, line) ==> Closing(d, line);
    hide LineWrites, EventText, Finishing, Closing;
    assert [Delta(text)][1..] == [] && [Stop][1..] == [] && [Done][1..] == [];
    assert Stops([Delta(text)]) == 0 && Stops([Stop]) == 1 && Stops([Done]) == 0;
    var delta := if text != "" then [Delta(text)] else [];
    var stop := if Finishing(d, line) then [Stop] else [];
    var done := if Closing(d, line) then [Done] else [];
    StopsOfTail(delta, stop);
    StopsOfTail(delta + stop, done);
  }

  lemma {:induction false} AllStops(d: Dialect, lines: seq<string>)
    ensures Stops(AllWrites(d, lines)) == FinishingLines(d, lines) && StopThenDone(AllWrites(d, lines))
    decreases |lines|
  {
    hide LineWrites, Finishing;
    if lines != [] {
      LineStops(d, lines[0]);
      AllStops(d, lines[1..]);
      StopsAppend(LineWrites(d, lines[0]), AllWrites(d, lines[1..]));
    }
  }

  /** A session has one stop chunk for each finishing event, each directly before a [DONE]. */
  lemma StopMarkers(d: Dialect, chunks: seq<string>)
    ensures Stops(Session(d, chunks)) == FinishingLines(d, Lines(Concat(chunks)).0)
    ensures StopThenDone(Session(d, chunks))
  {
    var lines := Lines(Concat(chunks)).0;
    SessionOfText(d, chunks);
    AllStops(d, lines);
    assert [Done][1..] == [] && Stops([Done]) == 0;
    StopsAppend(AllWrites(d, lines), [Done]);
  }

  // ------------------------------------------------------------------
  // Well-formed event streams
  // ------------------------------------------------------------------

  /** Server-sent events: each payload on a data line, then a blank line. */
  function EventStream(payloads: seq<string>): string {
    if payloads == [] then "" else "data: " + payloads[0] + "\n\n" + EventStream(payloads[1..])
  }

  function DataLines(payloads: seq<string>): seq<string> {
    if payloads == [] then [] else ["data: " + payloads[0], ""] + DataLines(payloads[1..])
  }

  lemma {:induction false} LinesOfStream(payloads: seq<string>)
    requires forall p :: p in payloads ==> '\n' !in p
    ensures Lines(EventStream(payloads)) == (DataLines(payloads), "")
    decreases |payloads|
  {
    hide Lines;
    if payloads == [] {
      Unbroken("");
    } else {
      var line, later := DATA + payloads[0], EventStream(payloads[1..]);
      var text := EventStream(payloads);
      assert text == line + "\n" + "\n" + later;
      assert payloads[0] in payloads;
      assert text[..|line|] == line && text[|line|] == '\n';
      LinesStep(text, |line|);
      var rest := text[|line| + 1..];
      assert rest[0] == '\n' && rest[..0] == "" && rest[1..] == later;
      LinesStep(rest, 0);
      LinesOfStream(payloads[1..]);
      assert [line] + ([""] + DataLines(payloads[1..])) == [line, ""] + DataLines(payloads[1..]);
    }
  }

  /** Every event of a well-formed stream reaches the client, however the stream is cut. */
  lemma StreamDelivered(d: Dialect, payloads: seq<string>, chunks: seq<string>)
    requires forall p :: p in payloads ==> '\n' !in p
    requires Concat(chunks) == EventStream(payloads)
    ensures Session(d, chunks) == AllWrites(d, DataLines(payloads)) + [Done]
  {
    LinesOfStream(payloads);
    SessionOfText(d, chunks);
  }

  /** A Gemini stream that carries its own end marker: the client gets two. */
  lemma DoneTwice(read: string -> Option<GeminiEvent>, chunks: seq<string>)
    requires Concat(chunks) == EventStream(["[DONE]"])
    ensures Session(Gemini(read), chunks) == [Done, Done]
  {
    var d := Gemini(read);
    StreamDelivered(d, ["[DONE]"], chunks);
    MarkerLine(read);
    TwoLines(d, DATA + "[DONE]", "");
    hide LineWrites, AllWrites, Session;
    assert DataLines(["[DONE]"]) == [DATA + "[DONE]", ""];
  }

  lemma TwoLines(d: Dialect, a: string, b: string)
    ensures AllWrites(d, [a, b]) == LineWrites(d, a) + LineWrites(d, b)
  {
    hide LineWrites;
    assert [a, b][1..] == [b] && [b][1..] == [];
    assert AllWrites(d, [b]) == LineWrites(d, b) + [];
    assert AllWrites(d, [a, b]) == LineWrites(d, a) + AllWrites(d, [b]);
  }

  lemma MarkerLine(read: string -> Option<GeminiEvent>)
    ensures LineWrites(Gemini(read), DATA + "[DONE]") == [Done] && LineWrites(Gemini(read), "") == []
  {
    var line := DATA + "[DONE]";
    assert line[|DATA|..] == "[DONE]";
    assert Trim("[DONE]") == "[DONE]";
  }
}
