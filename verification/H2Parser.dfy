/**
 The HTTP/2 frame parser of mango-waf/fingerprint/h2_parser.go, against the
 frame layout of section 4.1 of RFC 7540.
 */
module H2Parser {
  import opened Bytes
  import opened Wrappers

  /** The length field is |payload|; it is not stored twice. */
  datatype Frame = Frame(typ: byte, flags: byte, streamId: uint32, payload: seq<byte>)

  datatype Setting = Setting(id: uint16, value: uint32)

  datatype Priority = Priority(streamId: uint32, exclusive: bool, dependsOn: uint32, weight: byte)

  const MAX_FRAMES: nat := 20

  /** "PRI * HTTP/2.0\r\n\r\nSM\r\n\r\n", section 3.5 of RFC 7540. */
  const PREFACE: seq<byte> :=
    [0x50, 0x52, 0x49, 0x20, 0x2a, 0x20, 0x48, 0x54, 0x54, 0x50, 0x2f, 0x32,
     0x2e, 0x30, 0x0d, 0x0a, 0x0d, 0x0a, 0x53, 0x4d, 0x0d, 0x0a, 0x0d, 0x0a]

  /** Where the frames start. */
  function Start(data: seq<byte>): (p: nat)
    ensures p <= |data|
  {
    if PREFACE <= data then |PREFACE| else 0
  }

  // ------------------------------------------------------------------
  // Frames
  // ------------------------------------------------------------------

  /** No whole frame starts here. */
  predicate Incomplete(s: seq<byte>) {
    |s| < 9 || |s| < 9 + GetU24(s)
  }

  function FirstFrame(s: seq<byte>): (f: Frame)
    requires !Incomplete(s)
    ensures |f.payload| == GetU24(s) && f.streamId < 0x8000_0000
  {
    Frame(s[3], s[4], GetU32(s[5..]) % 0x8000_0000, s[9..9 + GetU24(s)])
  }

  function Frames(s: seq<byte>, limit: nat): seq<Frame>
    decreases limit
  {
    if limit == 0 then []
    else
      match NextFrame(s)
      case None => []
      case Some(next) => [next.0] + Frames(next.1, limit - 1)
  }

  function NextFrame(s: seq<byte>): Option<(Frame, seq<byte>)> {
    if Incomplete(s) then None else Some((FirstFrame(s), s[9 + GetU24(s)..]))
  }

  method ParseH2Frames(data: seq<byte>) returns (frames: seq<Frame>)
    ensures frames == Frames(data[Start(data)..], 20)
  {
    hide NextFrame;
    frames := [];
    var pos := 0;
    if |data| >= |PREFACE| && data[..|PREFACE|] == PREFACE {
      pos := |PREFACE|;
    }
    ghost var all, left := Frames(data[pos..], MAX_FRAMES), MAX_FRAMES;
    while pos + 9 <= |data|
      invariant pos <= |data| && 0 < left == MAX_FRAMES - |frames|
      invariant all == frames + Frames(data[pos..], left)
      decreases |data| - pos
    {
      var frame, next := ReadFrame(data, pos, left);
      if frame.None? { break; }
      pos, left := next, left - 1;
      Shift(frames, frame.value, Frames(data[pos..], left));
      frames := frames + [frame.value];
      if |frames| >= MAX_FRAMES { break; }
    }
    assert Frames(data[pos..], left) == [] by {
      if pos + 9 > |data| { TooShort(data[pos..], left); }
    }
  }

  lemma TooShort(s: seq<byte>, limit: nat)
    requires |s| < 9
    ensures Frames(s, limit) == []
  {}

  method ReadFrame(data: seq<byte>, pos: nat, ghost limit: nat) returns (frame: Option<Frame>, next: nat)
    requires pos + 9 <= |data| && limit > 0
    ensures pos < next
    ensures frame.None? ==> Frames(data[pos..], limit) == []
    ensures frame.Some? ==> next <= |data| && Frames(data[pos..], limit) == [frame.value] + Frames(data[next..], limit - 1)
  {
    var length: int := GetU24(data[pos..pos + 3]);
    var streamId := GetU32(data[pos + 5..pos + 9]) % 0x8000_0000;
    FramesAt(data, pos, limit);
    next := pos + 9 + length;
    if next > |data| { return None, next; }
    frame := Some(Frame(data[pos + 3], data[pos + 4], streamId, data[pos + 9..next]));
  }

  /** One step of `Frames`, by offset. */
  lemma FramesAt(data: seq<byte>, pos: nat, limit: nat)
    requires pos + 9 <= |data| && limit > 0
    ensures var next := pos + 9 + GetU24(data[pos..pos + 3]);
            Frames(data[pos..], limit) ==
            if next > |data| then []
            else [Frame(data[pos + 3], data[pos + 4], GetU32(data[pos + 5..pos + 9]) % 0x8000_0000,
                        data[pos + 9..next])]
                 + Frames(data[next..], limit - 1)
  {
    hide NextFrame, GetU24, GetU32;
    NextFrameAt(data, pos);
  }

  lemma NextFrameAt(data: seq<byte>, pos: nat)
    requires pos + 9 <= |data|
    ensures var next := pos + 9 + GetU24(data[pos..pos + 3]);
            NextFrame(data[pos..]) ==
            if next > |data| then None
            else Some((Frame(data[pos + 3], data[pos + 4], GetU32(data[pos + 5..pos + 9]) % 0x8000_0000,
                             data[pos + 9..next]), data[next..]))
  {
    var s := data[pos..];
    assert s[5..][..4] == data[pos + 5..pos + 9];
    assert GetU24(s) == GetU24(data[pos..pos + 3]) && GetU32(s[5..]) == GetU32(data[pos + 5..pos + 9]);
    hide GetU24, GetU32;
    if !Incomplete(s) {
      assert s[9..9 + GetU24(s)] == data[pos + 9..pos + 9 + GetU24(s)];
      assert s[9 + GetU24(s)..] == data[pos + 9 + GetU24(s)..];
    }
  }

  lemma FramesStep(s: seq<byte>, f: Frame, rest: seq<byte>, limit: nat)
    requires limit > 0 && !Incomplete(s) && FirstFrame(s) == f && s[9 + GetU24(s)..] == rest
    ensures Frames(s, limit) == [f] + Frames(rest, limit - 1)
  {}

  predicate WfFrame(f: Frame) {
    |f.payload| < 0x100_0000 && f.streamId < 0x8000_0000
  }

  predicate WfFrames(fs: seq<Frame>) {
    forall f :: f in fs ==> WfFrame(f)
  }

  /** A frame on the wire; `reserved` is the bit a receiver must ignore. */
  function FrameWire(f: Frame, reserved: bool): (r: seq<byte>)
    requires WfFrame(f)
    ensures |r| == 9 + |f.payload|
  {
    PutU24(|f.payload|) + [f.typ, f.flags]
    + PutU32(f.streamId + if reserved then 0x8000_0000 else 0) + f.payload
  }

  function FramesWire(fs: seq<Frame>, reserved: seq<bool>): seq<byte>
    requires WfFrames(fs) && |reserved| == |fs|
  {
    if fs == [] then []
    else FrameWire(fs[0], reserved[0]) + FramesWire(fs[1..], reserved[1..])
  }

  lemma FirstOfWire(f: Frame, reserved: bool, rest: seq<byte>)
    requires WfFrame(f)
    ensures var s := FrameWire(f, reserved) + rest;
            && GetU24(s) == |f.payload| && !Incomplete(s)
            && FirstFrame(s) == f && s[9 + GetU24(s)..] == rest
  {
    var s := FrameWire(f, reserved) + rest;
    var id := f.streamId + if reserved then 0x8000_0000 else 0;
    assert s == PutU24(|f.payload|) + s[3..];
    GetPut24(|f.payload|, s[3..]);
    assert s[5..] == PutU32(id) + (f.payload + rest);
    GetPut32(id, f.payload + rest);
    assert s[9..9 + |f.payload|] == f.payload;
  }

  lemma WireOfFirst(s: seq<byte>)
    requires !Incomplete(s)
    ensures var reserved := GetU32(s[5..]) >= 0x8000_0000;
            FrameWire(FirstFrame(s), reserved) == s[..9 + GetU24(s)]
  {
    hide GetU24, PutU24, GetU32, PutU32;
    PutGet24(s);
    PutGet32(s[5..]);
    assert s[..9 + GetU24(s)] == s[..3] + [s[3], s[4]] + s[5..][..4] + s[9..9 + GetU24(s)];
  }

  /** What the frame loop may return for `s`: some setting of the reserved bits
      makes the frames' encoding a prefix, and it stopped for one of two reasons. */
  ghost predicate Exact(s: seq<byte>, fs: seq<Frame>, limit: nat) {
    && WfFrames(fs) && |fs| <= limit
    && exists reserved: seq<bool> ::
         && |reserved| == |fs|
         && FramesWire(fs, reserved) <= s
         && (|fs| == limit || Incomplete(s[|FramesWire(fs, reserved)|..]))
  }

  /** The parser's answer and only the parser's answer is exact: soundness of
      every parse, and recovery of every sequence of frames from its encoding. */
  lemma {:induction false} FramesExact(s: seq<byte>, fs: seq<Frame>, limit: nat)
    ensures fs == Frames(s, limit) <==> Exact(s, fs, limit)
    decreases limit
  {
    if fs == Frames(s, limit) {
      var reserved := FramesAreExact(s, limit);
    }
    if Exact(s, fs, limit) {
      var reserved: seq<bool> :|
        && |reserved| == |fs| && FramesWire(fs, reserved) <= s
        && (|fs| == limit || Incomplete(s[|FramesWire(fs, reserved)|..]));
      ExactIsFrames(s, fs, reserved, limit);
    }
  }

  lemma {:induction false} FramesAreExact(s: seq<byte>, limit: nat) returns (reserved: seq<bool>)
    ensures var fs := Frames(s, limit);
            && WfFrames(fs) && |fs| <= limit && |reserved| == |fs|
            && FramesWire(fs, reserved) <= s
            && (|fs| == limit || Incomplete(s[|FramesWire(fs, reserved)|..]))
    decreases limit
  {
    hide FirstFrame, FrameWire, GetU24;
    var fs := Frames(s, limit);
    if limit == 0 || Incomplete(s) {
      reserved := [];
      assert s[0..] == s;
    } else {
      var f, n := FirstFrame(s), 9 + GetU24(s) as int;
      var bit := GetU32(s[5..]) >= 0x8000_0000;
      var later := FramesAreExact(s[n..], limit - 1);
      var fs' := Frames(s[n..], limit - 1);
      FramesStep(s, f, s[n..], limit);
      WireOfFirst(s);
      reserved := [bit] + later;
      WireStep(f, bit, fs', later);
      PrefixStep(s, n, FramesWire(fs', later));
    }
  }

  lemma WireStep(f: Frame, bit: bool, fs: seq<Frame>, reserved: seq<bool>)
    requires WfFrame(f) && WfFrames(fs) && |reserved| == |fs|
    ensures WfFrames([f] + fs)
    ensures FramesWire([f] + fs, [bit] + reserved) == FrameWire(f, bit) + FramesWire(fs, reserved)
  {
    assert ([f] + fs)[1..] == fs && ([bit] + reserved)[1..] == reserved;
  }

  lemma PrefixStep(s: seq<byte>, n: nat, tail: seq<byte>)
    requires n <= |s| && tail <= s[n..]
    ensures s[..n] + tail <= s && s[|s[..n] + tail|..] == s[n..][|tail|..]
  {}

  lemma {:induction false} ExactIsFrames(s: seq<byte>, fs: seq<Frame>, reserved: seq<bool>, limit: nat)
    requires WfFrames(fs) && |fs| <= limit && |reserved| == |fs|
    requires FramesWire(fs, reserved) <= s
    requires |fs| == limit || Incomplete(s[|FramesWire(fs, reserved)|..])
    ensures Frames(s, limit) == fs
    decreases limit
  {
    hide FirstFrame, FrameWire, GetU24;
    if fs == [] {
      assert s[0..] == s;
    } else {
      var first := FrameWire(fs[0], reserved[0]);
      var tail := FramesWire(fs[1..], reserved[1..]);
      var rest := s[|first|..];
      assert s == first + rest;
      FirstOfWire(fs[0], reserved[0], rest);
      assert tail <= rest && rest[|tail|..] == s[|first| + |tail|..];
      ExactIsFrames(rest, fs[1..], reserved[1..], limit - 1);
      FramesStep(s, fs[0], rest, limit);
      assert fs == [fs[0]] + fs[1..];
    }
  }

  /** More input never changes the frames already found. */
  lemma {:induction false} FramesExtend(s: seq<byte>, more: seq<byte>, limit: nat)
    ensures Frames(s, limit) <= Frames(s + more, limit)
    decreases limit
  {
    hide FirstFrame, GetU24;
    if limit > 0 && !Incomplete(s) {
      var n := 9 + GetU24(s) as int;
      SameFirst(s, more);
      FramesExtend(s[n..], more, limit - 1);
      FramesStep(s, FirstFrame(s), s[n..], limit);
      FramesStep(s + more, FirstFrame(s), s[n..] + more, limit);
    }
  }

  lemma SameFirst(s: seq<byte>, more: seq<byte>)
    requires !Incomplete(s)
    ensures var t := s + more;
            && GetU24(t) == GetU24(s) && !Incomplete(t) && FirstFrame(t) == FirstFrame(s)
            && t[9 + GetU24(s)..] == s[9 + GetU24(s)..] + more
  {
    var t := s + more;
    assert s[5..][..4] == t[5..][..4];
    assert s[9..9 + GetU24(s)] == t[9..9 + GetU24(s)];
  }

  /** The preface, spelled. */
  lemma PrefaceSpelled()
    ensures PREFACE == seq(24, i requires 0 <= i < 24 => "PRI * HTTP/2.0\r\n\r\nSM\r\n\r\n"[i] as int)
  {}

  /** An input that may still turn into the preface yields no frame: its first
      three bytes would announce a payload of 0x505249 bytes. */
  lemma UndecidedHasNoFrame(data: seq<byte>, limit: nat)
    requires data <= PREFACE
    ensures Frames(data, limit) == []
  {
    if |data| >= 9 {
      assert data[0] == 0x50 && data[1] == 0x52;
    }
  }

  /** The same for the whole parser, whether or not the preface has arrived yet. */
  lemma ParseExtends(data: seq<byte>, more: seq<byte>)
    ensures Frames(data[Start(data)..], 20) <=
            Frames((data + more)[Start(data + more)..], 20)
  {
    var all := data + more;
    if Start(all) == Start(data) {
      assert all[Start(data)..] == data[Start(data)..] + more;
      FramesExtend(data[Start(data)..], more, 20);
    } else {
      assert |data| < |PREFACE|;
      assert data == all[..|data|] == PREFACE[..|data|];
      UndecidedHasNoFrame(data, 20);
    }
  }

  /** Frames sent behind the preface come back, up to the first twenty. Without
      the preface they do too, unless their own encoding spells it. */
  lemma FramesRoundTrip(fs: seq<Frame>, reserved: seq<bool>)
    requires WfFrames(fs) && |reserved| == |fs| && |fs| <= 20
    ensures var wire := FramesWire(fs, reserved);
            && Frames((PREFACE + wire)[Start(PREFACE + wire)..], 20) == fs
            && (!(PREFACE <= wire) ==> Frames(wire[Start(wire)..], 20) == fs)
  {
    var wire := FramesWire(fs, reserved);
    assert wire[|wire|..] == [];
    ExactIsFrames(wire, fs, reserved, 20);
    assert (PREFACE + wire)[|PREFACE|..] == wire;
    assert wire[0..] == wire;
  }

  // ------------------------------------------------------------------
  // SETTINGS and PRIORITY payloads
  // ------------------------------------------------------------------

  function Settings(payload: seq<byte>): seq<Setting> {
    if |payload| < 6 then []
    else [Setting(GetU16(payload), GetU32(payload[2..]))] + Settings(payload[6..])
  }

  method ParseH2SettingsFrame(payload: seq<byte>) returns (settings: seq<Setting>)
    ensures settings == Settings(payload)
  {
    settings := [];
    var i := 0;
    while i + 5 < |payload|
      invariant i <= |payload|
      invariant Settings(payload) == settings + Settings(payload[i..])
      decreases |payload| - i
    {
      ghost var s := payload[i..];
      assert s[..2] == payload[i..i + 2] && s[2..][..4] == payload[i + 2..i + 6];
      assert s[6..] == payload[i + 6..];
      settings := settings + [Setting(GetU16(payload[i..i + 2]), GetU32(payload[i + 2..i + 6]))];
      i := i + 6;
    }
  }

  /** Section 6.5.1 of RFC 7540. */
  function SettingsWire(settings: seq<Setting>): seq<byte> {
    if settings == [] then []
    else PutU16(settings[0].id) + PutU32(settings[0].value) + SettingsWire(settings[1..])
  }

  /** The settings are exactly those whose encoding fills the payload but for
      fewer than six trailing bytes. */
  lemma {:induction false} SettingsExact(payload: seq<byte>, settings: seq<Setting>)
    ensures settings == Settings(payload) <==>
            exists rest: seq<byte> :: |rest| < 6 && payload == SettingsWire(settings) + rest
  {
    if settings == Settings(payload) {
      var rest := SettingsSound(payload);
    }
    if exists rest: seq<byte> :: |rest| < 6 && payload == SettingsWire(settings) + rest {
      var rest: seq<byte> :| |rest| < 6 && payload == SettingsWire(settings) + rest;
      SettingsComplete(settings, rest);
    }
  }

  lemma {:induction false} SettingsSound(payload: seq<byte>) returns (rest: seq<byte>)
    ensures |rest| < 6 && payload == SettingsWire(Settings(payload)) + rest
    decreases |payload|
  {
    if |payload| < 6 {
      rest := payload;
    } else {
      rest := SettingsSound(payload[6..]);
      PutGet16(payload);
      PutGet32(payload[2..]);
      assert payload == payload[..2] + payload[2..][..4] + payload[6..];
    }
  }

  lemma {:induction false} SettingsComplete(settings: seq<Setting>, rest: seq<byte>)
    requires |rest| < 6
    ensures Settings(SettingsWire(settings) + rest) == settings
  {
    if settings == [] {
      assert SettingsWire(settings) + rest == rest;
    } else {
      var later := SettingsWire(settings[1..]) + rest;
      var payload := SettingsWire(settings) + rest;
      assert payload == PutU16(settings[0].id) + (PutU32(settings[0].value) + later);
      GetPut16(settings[0].id, PutU32(settings[0].value) + later);
      GetPut32(settings[0].value, later);
      assert payload[6..] == payload[2..][4..];
      SettingsComplete(settings[1..], rest);
    }
  }

  function ParseH2PriorityFrame(payload: seq<byte>, streamId: uint32): Option<Priority> {
    if |payload| < 5 then None
    else
      var depAndExcl := GetU32(payload);
      Some(Priority(streamId, depAndExcl >= 0x8000_0000, depAndExcl % 0x8000_0000, payload[4]))
  }

  /** Section 6.3 of RFC 7540: exclusive bit, stream dependency, weight. */
  function PriorityWire(p: Priority): seq<byte>
    requires p.dependsOn < 0x8000_0000
  {
    PutU32(p.dependsOn + if p.exclusive then 0x8000_0000 else 0) + [p.weight]
  }

  /** A PRIORITY payload decodes to `p` exactly when it starts with p's encoding. */
  lemma PriorityExact(payload: seq<byte>, p: Priority)
    requires p.dependsOn < 0x8000_0000
    ensures ParseH2PriorityFrame(payload, p.streamId) == Some(p) <==> PriorityWire(p) <= payload
  {
    hide PutU32, GetU32;
    if PriorityWire(p) <= payload {
      PriorityDecodes(p, payload[5..]);
      assert payload == PriorityWire(p) + payload[5..];
    }
    if ParseH2PriorityFrame(payload, p.streamId) == Some(p) {
      PutGet32(payload);
      assert payload[..5] == payload[..4] + [payload[4]];
    }
  }

  lemma PriorityDecodes(p: Priority, rest: seq<byte>)
    requires p.dependsOn < 0x8000_0000
    ensures ParseH2PriorityFrame(PriorityWire(p) + rest, p.streamId) == Some(p)
  {
    hide PutU32, GetU32;
    var v := p.dependsOn + if p.exclusive then 0x8000_0000 else 0;
    assert PriorityWire(p) + rest == PutU32(v) + ([p.weight] + rest);
    GetPut32(v, [p.weight] + rest);
  }
}
