/**
 * What frame payloads say (section 6 of RFC 9113), as a syntax and its spelling: padding behind the content,
 * priority in front of a header fragment, settings as identifiers and values.  A frame passes the checks on
 * it alone exactly when its payload is such a spelling.
 */
module Http2Grammar {
  import opened Bytes
  import opened Http2Frames
  import Flow = Http2Flow
  import Driver = Http2Driver

  datatype Setting = Setting(identifier: nat, value: nat)

  /** Numbers are whole words, their reserved bit included. */
  datatype Payload =
    | Data(content: seq<byte>, pad: Option<seq<byte>>)
    | Headers(fragment: seq<byte>, pad: Option<seq<byte>>, priority: Option<(nat, byte)>)
    | Priority(word: nat, weight: byte)
    | Reset(code: nat)
    | Settings(settings: seq<Setting>)
    | Ping(octets: seq<byte>)
    | Goaway(word: nat, code: nat, debug: seq<byte>)
    | Update(word: nat)
    | Continuation(fragment: seq<byte>)
    | Other(kind: byte, octets: seq<byte>)

  predicate Word(n: nat) { n < 0x1_0000_0000 }

  /** A word without its reserved bit. */
  function Low(n: nat): nat { n % 0x8000_0000 }

  function Kind(p: Payload): byte {
    match p
    case Data(_, _) => 0
    case Headers(_, _, _) => 1
    case Priority(_, _) => 2
    case Reset(_) => 3
    case Settings(_) => 4
    case Ping(_) => 6
    case Goaway(_, _, _) => 7
    case Update(_) => 8
    case Continuation(_) => 9
    case Other(kind, _) => kind
  }

  predicate PadOk(pad: Option<seq<byte>>) { pad.Some? ==> |pad.value| < 256 }

  predicate SettingOk(s: Setting) {
    && s.identifier < 0x1_0000 && Word(s.value)
    && (s.identifier == 2 ==> s.value == 0)
    && (s.identifier == 4 ==> s.value < 0x8000_0000)
    && (s.identifier == 5 ==> 16384 <= s.value < 0x100_0000)
  }

  predicate Sensible(p: Payload) {
    match p
    case Data(_, pad) => PadOk(pad)
    case Headers(_, pad, priority) => PadOk(pad)
        && (priority.Some? ==> Word(priority.value.0) && Low(priority.value.0) != 1)
    case Priority(word, _) => Word(word) && Low(word) != 1
    case Reset(code) => Word(code)
    case Settings(settings) => forall i :: 0 <= i < |settings| ==> SettingOk(settings[i])
    case Ping(octets) => |octets| == 8
    case Goaway(word, code, _) => Word(word) && Word(code)
    case Update(word) => Word(word) && Low(word) != 0
    case Continuation(_) => true
    case Other(kind, _) => kind > 9
  }

  /** Padding frames what is inside: its length in front, the padding itself behind. */
  function Padded(inside: seq<byte>, pad: Option<seq<byte>>): seq<byte>
    requires PadOk(pad)
  {
    match pad case None => inside case Some(octets) => [|octets|] + inside + octets
  }

  function SpellSettings(settings: seq<Setting>): seq<byte>
    requires forall i :: 0 <= i < |settings| ==> SettingOk(settings[i])
  {
    if settings == [] then []
    else
      assert SettingOk(settings[0]);
      Octets16(settings[0].identifier) + Octets32(settings[0].value) + SpellSettings(settings[1..])
  }

  function Spell(p: Payload): seq<byte>
    requires Sensible(p)
  {
    match p
    case Data(content, pad) => Padded(content, pad)
    case Headers(fragment, pad, None) => Padded(fragment, pad)
    case Headers(fragment, pad, Some((word, weight))) => Padded(Octets32(word) + [weight] + fragment, pad)
    case Priority(word, weight) => Octets32(word) + [weight]
    case Reset(code) => Octets32(code)
    case Settings(settings) => SpellSettings(settings)
    case Ping(octets) => octets
    case Goaway(word, code, debug) => Octets32(word) + Octets32(code) + debug
    case Update(word) => Octets32(word)
    case Continuation(fragment) => fragment
    case Other(_, octets) => octets
  }

  /** The flags that go with a payload, and where it may be sent. */
  predicate Carried(flags: byte, stream: nat, p: Payload) {
    match p
    case Data(_, pad) => stream == 1 && (Flag(flags, 8) <==> pad.Some?)
    case Headers(_, pad, priority) =>
      stream == 1 && (Flag(flags, 8) <==> pad.Some?) && (Flag(flags, 32) <==> priority.Some?)
    case Settings(settings) => stream == 0 && (Flag(flags, 1) ==> settings == [])
    case Ping(_) => stream == 0
    case Goaway(_, _, _) => stream == 0
    case Update(_) => stream <= 1
    case Other(_, _) => true
    case _ => stream == 1
  }

  /** The frame says this. */
  predicate Says(f: Frame, p: Payload) {
    Sensible(p) && f.kind == Kind(p) && f.payload == Spell(p) && Carried(f.flags, f.stream, p)
  }

  // ----- words

  lemma Word32(o: seq<byte>)
    requires |o| == 4
    ensures U32(o) < 0x1_0000_0000 && Octets32(U32(o)) == o
  {
    Word24(o[..3]);
    assert U32(o) / 0x100 == U24(o[..3]);
  }

  lemma Word24(o: seq<byte>)
    requires |o| == 3
    ensures U24(o) < 0x100_0000 && Octets24(U24(o)) == o
  {
    assert U24(o) / 0x100 == U16(o[..2]);
    Word16(o[..2]);
  }

  lemma Word16(o: seq<byte>)
    requires |o| == 2
    ensures U16(o) < 0x1_0000 && Octets16(U16(o)) == o
  {
  }

  lemma Number16(n: nat)
    requires n < 0x1_0000
    ensures U16(Octets16(n)) == n
  {
  }

  // ----- settings

  /** Settings are read back as they were spelled, and only what is lawful can be spelled. */
  lemma {:induction false} SettingsRead(settings: seq<Setting>)
    requires forall i :: 0 <= i < |settings| ==> SettingOk(settings[i])
    ensures |SpellSettings(settings)| == 6 * |settings| && SettingsLawful(SpellSettings(settings))
    ensures Flow.Sizes(SpellSettings(settings)) == Values(settings)
    decreases |settings|
  {
    hide U16, U32, Octets16, Octets32;
    if settings != [] {
      var s, rest := settings[0], settings[1..];
      var payload := SpellSettings(settings);
      SettingsRead(rest);
      Number16(s.identifier);
      Numbers32(s.value);
      assert payload[..2] == Octets16(s.identifier) && payload[2..6] == Octets32(s.value);
      assert payload[6..] == SpellSettings(rest);
    }
  }

  /** The values given for identifier 4, the initial window size, in order. */
  function Values(settings: seq<Setting>): seq<nat> {
    if settings == [] then []
    else (if settings[0].identifier == 4 then [settings[0].value] else []) + Values(settings[1..])
  }

  lemma {:induction false} SettingsFound(payload: seq<byte>) returns (settings: seq<Setting>)
    requires |payload| % 6 == 0 && SettingsLawful(payload)
    ensures forall i :: 0 <= i < |settings| ==> SettingOk(settings[i])
    ensures SpellSettings(settings) == payload
    decreases |payload|
  {
    hide U16, U32, Octets16, Octets32;
    settings := [];
    if payload != [] {
      var rest := SettingsFound(payload[6..]);
      Word16(payload[..2]);
      Word32(payload[2..6]);
      settings := [Setting(U16(payload[..2]), U32(payload[2..6]))] + rest;
      assert settings[1..] == rest;
      assert payload == payload[..2] + payload[2..6] + payload[6..];
    }
  }

  // ----- padding

  lemma PaddingOff(f: Frame, inside: seq<byte>, pad: Option<seq<byte>>)
    requires PadOk(pad) && f.payload == Padded(inside, pad) && (f.Padded() <==> pad.Some?)
    ensures Flow.DataContent(f) == Some(inside)
    ensures f.Padding() == (if pad.Some? then |pad.value| else 0) && (pad.Some? ==> f.Padding() < |f.payload|)
  {
    if pad.Some? {
      var octets := pad.value;
      assert f.payload[0] == |octets|;
      assert f.payload[1..|f.payload| - |octets|] == inside;
    }
  }

  /** The content of a DATA payload is what its padding frames: exactly when there is such a frame, and exactly that. */
  lemma DataContentIff(f: Frame, content: seq<byte>)
    ensures Flow.DataContent(f) == Some(content) <==>
              if !f.Padded() then content == f.payload
              else exists pad: seq<byte> :: |pad| < 256 && f.payload == [|pad|] + content + pad
  {
    if f.Padded() {
      if Flow.DataContent(f) == Some(content) {
        var n := f.payload[0];
        var pad := f.payload[|f.payload| - n..];
        assert f.payload == [|pad|] + content + pad;
      }
      if pad: seq<byte> :| |pad| < 256 && f.payload == [|pad|] + content + pad {
        PaddingOff(f, content, Some(pad));
      }
    }
  }

  // ----- header fragments

  /** Fragment, padding and priority are told apart exactly as they were put together. */
  lemma FragmentRead(f: Frame, p: Payload)
    requires p.Headers? && Says(f, p)
    ensures f.Strippable() && f.Content() == p.fragment
  {
    hide U24, Octets24, Flow.DataContent;
    var inside := if p.priority.None? then p.fragment
                  else Octets32(p.priority.value.0) + [p.priority.value.1] + p.fragment;
    PaddingOff(f, inside, p.pad);
    var from, to := if p.pad.Some? then 1 else 0, |f.payload| - f.Padding();
    assert f.payload[from..to] == inside;
    if p.priority.Some? {
      var word := p.priority.value.0;
      Numbers32(word);
      assert f.payload[from..from + 4] == inside[..4] == Octets32(word);
      assert f.payload[from + 5..to] == inside[5..] == p.fragment;
    }
  }

  lemma PaddingFound(f: Frame) returns (inside: seq<byte>, pad: Option<seq<byte>>)
    requires f.Padded() ==> f.Padding() < |f.payload|
    ensures PadOk(pad) && f.payload == Padded(inside, pad) && (pad.Some? <==> f.Padded())
    ensures inside == f.payload[if f.Padded() then 1 else 0..|f.payload| - f.Padding()]
  {
    var n := |f.payload| - f.Padding();
    inside := f.payload[if f.Padded() then 1 else 0..n];
    pad := if f.Padded() then Some(f.payload[n..]) else None;
    if f.Padded() { assert f.payload == [f.payload[0]] + f.payload[1..n] + f.payload[n..]; }
  }

  lemma PriorityFound(inside: seq<byte>)
    requires |inside| >= 5
    ensures U32(inside[..4]) < 0x1_0000_0000
    ensures inside == Octets32(U32(inside[..4])) + [inside[4]] + inside[5..]
  {
    hide U32, Octets32;
    Word32(inside[..4]);
  }

  lemma FragmentFound(f: Frame) returns (p: Payload)
    requires f.kind == HEADERS && f.Strippable() && f.stream == 1
    ensures p.Headers? && Says(f, p)
  {
    hide U32, Octets32, Padded;
    var inside, pad := PaddingFound(f);
    if f.Prioritized() {
      PriorityFound(inside);
      var word := U32(inside[..4]);
      assert inside[..4] == f.payload[f.Skip() - 5..f.Skip() - 1];
      p := Headers(inside[5..], pad, Some((word, inside[4])));
    } else {
      p := Headers(inside, pad, None);
    }
  }

  // ----- every kind

  lemma SaidIsLocal(f: Frame, p: Payload)
    requires Says(f, p) && |f.payload| <= 16384
    ensures f.Local()
  {
    hide U32, Octets32, SettingsLawful, SpellSettings, Padded;
    match p
    case Data(content, pad) => PaddingOff(f, content, pad);
    case Headers(_, _, _) => FragmentRead(f, p);
    case Priority(word, weight) =>
      Numbers32(word);
      assert f.payload[..4] == Octets32(word);
    case Settings(settings) => SettingsRead(settings);
    case Update(word) => Numbers32(word);
    case _ =>
  }

  lemma DataFound(f: Frame) returns (p: Payload)
    requires f.kind == DATA && f.Local()
    ensures Says(f, p)
  {
    var content, pad := PaddingFound(f);
    p := Data(content, pad);
  }

  lemma WordsFound(f: Frame) returns (p: Payload)
    requires f.Local() && (f.kind == PRIORITY || f.kind == RST_STREAM || f.kind == GOAWAY || f.kind == WINDOW_UPDATE)
    ensures Says(f, p)
  {
    hide U24, Octets24, SettingsLawful;
    var front := f.payload[..4];
    Word32(front);
    if f.kind == PRIORITY {
      assert f.payload == front + [f.payload[4]];
      p := Priority(U32(front), f.payload[4]);
    } else if f.kind == GOAWAY {
      Word32(f.payload[4..8]);
      assert f.payload == front + f.payload[4..8] + f.payload[8..];
      p := Goaway(U32(front), U32(f.payload[4..8]), f.payload[8..]);
    } else {
      assert f.payload == front;
      p := if f.kind == RST_STREAM then Reset(U32(front)) else Update(U32(front));
    }
  }

  lemma LocalIsSaid(f: Frame) returns (p: Payload)
    requires f.Local()
    ensures Says(f, p)
  {
    hide U24, U32, Octets24, Octets32, SettingsLawful;
    if f.kind == DATA {
      p := DataFound(f);
    } else if f.kind == HEADERS {
      p := FragmentFound(f);
    } else if f.kind == SETTINGS {
      var settings := SettingsFound(f.payload);
      p := Settings(settings);
      SettingsRead(settings);
    } else if f.kind in {PRIORITY, RST_STREAM, GOAWAY, WINDOW_UPDATE} {
      p := WordsFound(f);
    } else {
      p := if f.kind == PING then Ping(f.payload)
           else if f.kind == CONTINUATION then Continuation(f.payload) else Other(f.kind, f.payload);
    }
  }

  /** A frame passes on its own exactly when it is short enough and says something sensible where it may be said. */
  lemma LocalIff(f: Frame)
    ensures f.Local() <==> |f.payload| <= 16384 && exists p :: Says(f, p)
  {
    hide Says, Frame.Local;
    if f.Local() {
      LocalLength(f);
      var p := LocalIsSaid(f);
    }
    if p :| |f.payload| <= 16384 && Says(f, p) { SaidIsLocal(f, p); }
  }

  lemma LocalLength(f: Frame)
    requires f.Local()
    ensures |f.payload| <= 16384
  {
  }

  // ----- frames on the wire

  /** A frame as octets: length, type, flags, a word whose reserved bit means nothing, payload. */
  function Sent(f: Frame, word: nat): seq<byte>
    requires Word(word) && |f.payload| < 0x100_0000
  {
    Octets24(|f.payload|) + [f.kind, f.flags] + Octets32(word) + f.payload
  }

  predicate Begins(input: seq<byte>, f: Frame, word: nat, rest: seq<byte>) {
    Word(word) && |f.payload| < 0x100_0000 && f.stream == Low(word) && input == Sent(f, word) + rest
  }

  /** A frame is cut off an input exactly when the input begins with it. */
  lemma CutIff(input: seq<byte>, f: Frame, rest: seq<byte>)
    ensures Cut(input) == Some((f, rest)) <==> exists word :: Begins(input, f, word, rest)
  {
    hide U24, U32, Octets24, Octets32;
    if Cut(input) == Some((f, rest)) {
      Word24(input[..9][..3]);
      Word32(input[..9][5..9]);
      var word, n := U32(input[..9][5..9]), 9 + |f.payload|;
      assert input == input[..3] + [input[3], input[4]] + input[5..9] + input[9..n] + input[n..];
      assert input[..9][..3] == input[..3] && input[..9][5..9] == input[5..9];
      assert Begins(input, f, word, rest);
    }
    if word :| Begins(input, f, word, rest) { SentIsCut(f, word, rest); }
  }

  lemma SentIsCut(f: Frame, word: nat, rest: seq<byte>)
    requires Word(word) && |f.payload| < 0x100_0000 && f.stream == Low(word)
    ensures Cut(Sent(f, word) + rest) == Some((f, rest))
  {
    hide U24, U32, Octets24, Octets32;
    var input := Sent(f, word) + rest;
    Numbers24(|f.payload|);
    Numbers32(word);
    assert input[..9][..3] == Octets24(|f.payload|) && input[..9][5..9] == Octets32(word);
    assert input[9..9 + |f.payload|] == f.payload && input[9 + |f.payload|..] == rest;
  }

  // ----- what the driver reads in them

  /** A peer leaves politely behind our stream and without an error, whatever else it says. */
  lemma PoliteIff(f: Frame, word: nat, code: nat, debug: seq<byte>)
    requires Says(f, Goaway(word, code, debug))
    ensures Driver.PoliteGoaway(f) <==> Low(word) >= 1 && code == 0
  {
    hide U24, Octets24;
    Numbers32(word);
    Numbers32(code);
    assert f.payload[..4] == Octets32(word) && f.payload[4..8] == Octets32(code);
  }

  /** What SETTINGS and WINDOW_UPDATE frames do to the send windows, by what they say. */
  lemma ObservedSays(w: Flow.Windows, f: Frame, p: Payload)
    requires Says(f, p)
    ensures p.Update? ==> w.Observed(f) == w.Credited(f.stream, Low(p.word))
    ensures p.Settings? && w.Observed(f).Some? ==>
              w.Observed(f).value.initial == Flow.LastSize(Values(p.settings), w.initial)
    ensures p.Settings? ==>
              (w.Observed(f).Some? <==>
                 forall k :: 0 <= k < |Values(p.settings)| ==>
                   Values(p.settings)[k] < 0x8000_0000 && w.stream - w.initial + Values(p.settings)[k] < 0x8000_0000)
  {
    hide U24, Octets24;
    match p
    case Update(word) => Numbers32(word);
    case Settings(settings) =>
      SettingsRead(settings);
      Flow.SettledIff(w, f.payload);
    case _ =>
  }

  /** Nothing else moves the send windows: no other kind, no SETTINGS of a stream, no ACK that carries settings. */
  lemma ObservedOnly(w: Flow.Windows, f: Frame)
    requires w.Observed(f).Some?
    ensures f.kind == 4 || f.kind == 8
    ensures f.kind == 4 ==> f.stream == 0 && |f.payload| % 6 == 0 && (f.flags % 2 == 1 ==> f.payload == [])
    ensures f.kind == 8 ==> f.stream <= 1 && |f.payload| == 4 && 0 < Low(U32(f.payload))
    ensures f.kind == 8 && f.stream == 0 ==> w.Observed(f).value == w.(connection := w.connection + Low(U32(f.payload)))
    ensures f.kind == 8 && f.stream == 1 ==> w.Observed(f).value == w.(stream := w.stream + Low(U32(f.payload)))
  {
    hide U32;
  }
}
