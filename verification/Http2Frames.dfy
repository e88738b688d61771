/**
 * HTTP/2 response frames on stream 1 (sections 4, 6.2 and 6.10 of RFC 9113).
 *
 * `Gate` is the reader's memory and `Admit` its verdict on one frame.  `Lawful` says of a whole run of
 * frames, by position, what the order rules are; the two agree on every run.
 */
module Http2Frames {
  import opened Bytes

  const MAXIMUM_FRAME_BYTES: nat := 16384

  const DATA: byte := 0
  const HEADERS: byte := 1
  const PRIORITY: byte := 2
  const RST_STREAM: byte := 3
  const SETTINGS: byte := 4
  const PUSH_PROMISE: byte := 5
  const PING: byte := 6
  const GOAWAY: byte := 7
  const WINDOW_UPDATE: byte := 8
  const CONTINUATION: byte := 9

  /** A frame with its payload as it lies on the wire. */
  datatype Frame = Frame(kind: byte, flags: byte, stream: nat, payload: seq<byte>) {
    predicate Ack() { Flag(flags, 1) }
    predicate EndStream() { Flag(flags, 1) }
    predicate EndHeaders() { Flag(flags, 4) }
    predicate Padded() { Flag(flags, 8) }
    predicate Prioritized() { Flag(flags, 32) }

    /** A header block this frame leaves unfinished. */
    predicate Opens() { (kind == HEADERS || kind == CONTINUATION) && !EndHeaders() }

    /** Nothing more of the response may follow. */
    predicate Ends() { kind == RST_STREAM || ((kind == DATA || kind == HEADERS) && EndStream()) }

    /** Where the header fragment of a HEADERS payload starts. */
    function Skip(): nat { (if Padded() then 1 else 0) + (if Prioritized() then 5 else 0) }

    function Padding(): nat { if Padded() && payload != [] then payload[0] else 0 }

    predicate Strippable() {
      && Skip() + Padding() <= |payload|
      && (Prioritized() ==> U31(payload[Skip() - 5..Skip() - 1]) != 1)
    }

    /** What the reader hands on: HEADERS lose padding and priority, everything else is untouched. */
    function Content(): seq<byte>
      requires kind == HEADERS ==> Strippable()
    {
      if kind == HEADERS then payload[Skip()..|payload| - Padding()] else payload
    }

    /** Everything that can be said of the frame without its history. */
    predicate Local() {
      && |payload| <= MAXIMUM_FRAME_BYTES
      && (kind == DATA ==> stream == 1 && (Padded() ==> Padding() < |payload|))
      && (kind == HEADERS ==> stream == 1 && Strippable())
      && (kind == PRIORITY ==> stream == 1 && |payload| == 5 && U31(payload[..4]) != 1)
      && (kind == RST_STREAM ==> stream == 1 && |payload| == 4)
      && (kind == SETTINGS ==>
            stream == 0 && |payload| % 6 == 0 && (Ack() ==> payload == []) && SettingsLawful(payload))
      && kind != PUSH_PROMISE
      && (kind == PING ==> stream == 0 && |payload| == 8)
      && (kind == GOAWAY ==> stream == 0 && |payload| >= 8)
      && (kind == WINDOW_UPDATE ==> stream <= 1 && |payload| == 4 && U31(payload) != 0)
      && (kind == CONTINUATION ==> stream == 1)
    }
  }

  function Payloads(frames: seq<Frame>): seq<seq<byte>> {
    seq(|frames|, i requires 0 <= i < |frames| => frames[i].payload)
  }

  function U16(o: seq<byte>): nat requires |o| == 2 { 0x100 * (o[0] as int) + o[1] }
  function U24(o: seq<byte>): nat requires |o| == 3 { 0x100 * U16(o[..2]) + o[2] }
  function U32(o: seq<byte>): nat requires |o| == 4 { 0x100 * U24(o[..3]) + o[3] }

  /** The reserved bit is ignored. */
  function U31(o: seq<byte>): nat requires |o| == 4 { U32(o) % 0x8000_0000 }

  predicate SettingLawful(identifier: nat, value: nat) {
    && (identifier == 2 ==> value == 0)
    && (identifier == 4 ==> value <= 0x7fff_ffff)
    && (identifier == 5 ==> MAXIMUM_FRAME_BYTES <= value <= 16777215)
  }

  predicate SettingsLawful(payload: seq<byte>)
    requires |payload| % 6 == 0
  {
    payload == [] ||
    (SettingLawful(U16(payload[..2]), U32(payload[2..6])) && SettingsLawful(payload[6..]))
  }

  // ----- frames on the wire

  datatype Head = Head(length: nat, kind: byte, flags: byte, stream: nat)

  function HeadOf(o: seq<byte>): Head
    requires |o| == 9
  {
    Head(U24(o[..3]), o[3], o[4], U31(o[5..9]))
  }

  /** The first frame of the input and what is behind it. */
  function Cut(input: seq<byte>): Option<(Frame, seq<byte>)> {
    if |input| < 9 then None
    else
      var h := HeadOf(input[..9]);
      if |input| < 9 + h.length then None
      else Some((Frame(h.kind, h.flags, h.stream, input[9..9 + h.length]), input[9 + h.length..]))
  }

  function Octets16(n: nat): (o: seq<byte>)
    requires n < 0x1_0000
    ensures |o| == 2
  {
    [n / 0x100, n % 0x100]
  }

  function Octets24(n: nat): (o: seq<byte>)
    requires n < 0x100_0000
    ensures |o| == 3
  {
    Octets16(n / 0x100) + [n % 0x100]
  }

  function Octets32(n: nat): (o: seq<byte>)
    requires n < 0x1_0000_0000
    ensures |o| == 4
  {
    Octets24(n / 0x100) + [n % 0x100]
  }

  lemma Numbers24(n: nat)
    requires n < 0x100_0000
    ensures U24(Octets24(n)) == n
  {
    assert Octets24(n)[..2] == Octets16(n / 0x100);
  }

  lemma Numbers32(n: nat)
    requires n < 0x1_0000_0000
    ensures U32(Octets32(n)) == n
  {
    assert Octets32(n)[..3] == Octets24(n / 0x100);
    Numbers24(n / 0x100);
  }

  function Wire(f: Frame): seq<byte>
    requires |f.payload| < 0x100_0000 && f.stream < 0x8000_0000
  {
    Octets24(|f.payload|) + [f.kind, f.flags] + Octets32(f.stream) + f.payload
  }

  /** A written frame is cut off the front of whatever follows it, exactly as it was. */
  lemma CutWire(f: Frame, rest: seq<byte>)
    requires |f.payload| < 0x100_0000 && f.stream < 0x8000_0000
    ensures Cut(Wire(f) + rest) == Some((f, rest))
  {
    hide U24, U32, Octets24, Octets32;
    var input := Wire(f) + rest;
    Numbers24(|f.payload|);
    Numbers32(f.stream);
    assert input[..9][..3] == Octets24(|f.payload|);
    assert input[..9][5..9] == Octets32(f.stream);
    assert HeadOf(input[..9]) == Head(|f.payload|, f.kind, f.flags, f.stream);
    assert input[9..9 + |f.payload|] == f.payload;
    assert input[9 + |f.payload|..] == rest;
  }

  // ----- the gate

  datatype Gate = Gate(maximum: nat, encoded: nat, first: bool, head: bool, continuation: bool, ended: bool,
                       reset: bool, trailersAllowed: bool, trailer: bool)
  {
    /** Only here is a transport end a clean one. */
    predicate Complete() { head && ended && !continuation && !reset }

    predicate InOrder(kind: byte, flags: byte, stream: nat) {
      && (first ==> kind == SETTINGS && !Flag(flags, 1))
      && (continuation ==> kind == CONTINUATION && stream == 1)
      && (kind == DATA ==> head && !ended)
      && (kind == HEADERS ==> !ended && (head ==> trailersAllowed && !trailer && Flag(flags, 1)))
      && (kind == CONTINUATION ==> continuation)
    }

    /** Encoded octets of the section once a fragment of that kind is added. */
    function Charge(kind: byte, fragment: nat): nat {
      if kind == HEADERS && head then fragment
      else if kind == HEADERS || kind == CONTINUATION then encoded + fragment
      else encoded
    }

    predicate OverBound(kind: byte, fragment: nat) {
      (kind == HEADERS || kind == CONTINUATION) && Charge(kind, fragment) > maximum
    }

    function Admit(f: Frame): Option<Gate> {
      if !f.Local() || !InOrder(f.kind, f.flags, f.stream) || OverBound(f.kind, |f.Content()|) then None
      else Some(this.(encoded := Charge(f.kind, |f.Content()|), first := false,
                      head := head || f.kind == HEADERS,
                      trailer := trailer || (head && f.kind == HEADERS),
                      continuation := f.Opens(),
                      ended := ended || f.Ends(),
                      reset := reset || f.kind == RST_STREAM))
    }
  }

  function Fresh(maximum: nat, trailersAllowed: bool): Gate {
    Gate(maximum, 0, true, false, false, false, false, trailersAllowed, false)
  }

  datatype Reading = Got(frame: Frame, gate: Gate, rest: seq<byte>) | End | Refused

  /** One read from the input. */
  function Read(g: Gate, input: seq<byte>): Reading {
    if input == [] then (if g.Complete() then End else Refused)
    else match Cut(input)
      case None => Refused
      case Some((f, rest)) => match g.Admit(f) case None => Refused case Some(next) => Got(f, next, rest)
  }

  // ----- whole runs

  function AdmitAll(g: Gate, frames: seq<Frame>): Option<Gate> {
    if frames == [] then Some(g)
    else match AdmitAll(g, frames[..|frames| - 1])
      case None => None
      case Some(next) => next.Admit(frames[|frames| - 1])
  }

  /** Encoded octets of the last header section so far. */
  function SectionBytes(frames: seq<Frame>): nat {
    if frames == [] then 0
    else
      var f, before := frames[|frames| - 1], SectionBytes(frames[..|frames| - 1]);
      if f.kind == HEADERS && f.Strippable() then |f.Content()|
      else if f.kind == CONTINUATION then before + |f.payload|
      else before
  }

  /** A CONTINUATION stands exactly behind every unfinished header fragment. */
  predicate Contiguous(frames: seq<Frame>) {
    && (frames != [] ==> frames[0].kind == SETTINGS && !frames[0].Ack())
    && forall i :: 0 < i < |frames| ==> (frames[i].kind == CONTINUATION <==> frames[i - 1].Opens())
  }

  /** Nothing of the response follows its end. */
  predicate Closed(frames: seq<Frame>) {
    forall j :: 0 <= j < |frames| && (frames[j].kind == DATA || frames[j].kind == HEADERS) ==> !HasEnd(frames[..j])
  }

  /** DATA only behind a header section; a second section only as allowed trailers that end the stream. */
  predicate Sectioned(frames: seq<Frame>, trailersAllowed: bool) {
    && (forall j :: 0 <= j < |frames| && frames[j].kind == DATA ==> HasHeaders(frames[..j]))
    && (forall j :: 0 <= j < |frames| && frames[j].kind == HEADERS && HasHeaders(frames[..j]) ==>
          trailersAllowed && frames[j].EndStream())
  }

  /** The order rules of the response, by position in the run. */
  predicate Lawful(frames: seq<Frame>, maximum: nat, trailersAllowed: bool) {
    && (forall i :: 0 <= i < |frames| ==> frames[i].Local())
    && Contiguous(frames) && Closed(frames) && Sectioned(frames, trailersAllowed)
    && (forall n :: 0 <= n <= |frames| ==> SectionBytes(frames[..n]) <= maximum)
  }

  predicate HasHeaders(frames: seq<Frame>) {
    exists i :: 0 <= i < |frames| && frames[i].kind == HEADERS
  }

  predicate HasEnd(frames: seq<Frame>) {
    exists i :: 0 <= i < |frames| && frames[i].Ends()
  }

  predicate HasReset(frames: seq<Frame>) {
    exists i :: 0 <= i < |frames| && frames[i].kind == RST_STREAM
  }

  /** The gate's memory is a function of the frames it has let through. */
  predicate Remembers(g: Gate, frames: seq<Frame>, maximum: nat, trailersAllowed: bool) {
    && g.maximum == maximum && g.trailersAllowed == trailersAllowed
    && g.encoded == SectionBytes(frames)
    && (g.first <==> frames == [])
    && (g.head <==> HasHeaders(frames))
    && (g.continuation <==> frames != [] && frames[|frames| - 1].Opens())
    && (g.ended <==> HasEnd(frames))
    && (g.reset <==> HasReset(frames))
    && (g.trailer ==> g.ended)
    && (!g.head ==> g.encoded == 0 && !g.continuation)
  }

  lemma RemembersNext(g: Gate, frames: seq<Frame>, f: Frame, maximum: nat, trailersAllowed: bool)
    requires Remembers(g, frames, maximum, trailersAllowed) && g.Admit(f).Some?
    ensures Remembers(g.Admit(f).value, frames + [f], maximum, trailersAllowed)
  {
    hide SettingsLawful, SettingLawful;
    var all := frames + [f];
    assert all[..|all| - 1] == frames && all[|all| - 1] == f;
    assert forall i :: 0 <= i < |frames| ==> all[i] == frames[i];
    assert HasHeaders(all) <==> HasHeaders(frames) || f.kind == HEADERS;
    assert HasEnd(all) <==> HasEnd(frames) || f.Ends();
    assert HasReset(all) <==> HasReset(frames) || f.kind == RST_STREAM;
  }

  /** One more frame, for each of the rules by itself. */
  lemma ContiguousNext(g: Gate, frames: seq<Frame>, f: Frame, maximum: nat, trailersAllowed: bool)
    requires Remembers(g, frames, maximum, trailersAllowed)
    ensures Contiguous(frames + [f]) <==>
              Contiguous(frames) && (g.first ==> f.kind == SETTINGS && !f.Ack()) &&
              (!g.first ==> (f.kind == CONTINUATION <==> g.continuation))
  {
    hide Frame.Local, Frame.Opens, Frame.Ends, SectionBytes, HasHeaders, HasEnd, HasReset;
    var all := frames + [f];
    assert forall i :: 0 <= i < |frames| ==> all[i] == frames[i];
    assert all[|frames|] == f;
    if Contiguous(all) && frames != [] { assert all[|frames| - 1] == frames[|frames| - 1]; }
  }

  lemma ClosedNext(g: Gate, frames: seq<Frame>, f: Frame, maximum: nat, trailersAllowed: bool)
    requires Remembers(g, frames, maximum, trailersAllowed)
    ensures Closed(frames + [f]) <==> Closed(frames) && (f.kind == DATA || f.kind == HEADERS ==> !g.ended)
  {
    hide Frame.Local, Frame.Opens, Frame.Ends, SectionBytes, HasHeaders, HasEnd, HasReset;
    var all := frames + [f];
    assert forall i :: 0 <= i < |frames| ==> all[i] == frames[i];
    assert forall n :: 0 <= n <= |frames| ==> all[..n] == frames[..n];
    assert all[|frames|] == f && all[..|frames|] == frames && frames[..|frames|] == frames;
  }

  lemma SectionedNext(g: Gate, frames: seq<Frame>, f: Frame, maximum: nat, trailersAllowed: bool)
    requires Remembers(g, frames, maximum, trailersAllowed)
    ensures Sectioned(frames + [f], trailersAllowed) <==>
              Sectioned(frames, trailersAllowed) && (f.kind == DATA ==> g.head) &&
              (f.kind == HEADERS && g.head ==> trailersAllowed && f.EndStream())
  {
    hide Frame.Local, Frame.Opens, Frame.Ends, SectionBytes, HasHeaders, HasEnd, HasReset;
    var all := frames + [f];
    assert forall i :: 0 <= i < |frames| ==> all[i] == frames[i];
    assert forall n :: 0 <= n <= |frames| ==> all[..n] == frames[..n];
    assert all[|frames|] == f && all[..|frames|] == frames && frames[..|frames|] == frames;
  }

  lemma FundedNext(frames: seq<Frame>, f: Frame, maximum: nat)
    ensures (forall n :: 0 <= n <= |frames + [f]| ==> SectionBytes((frames + [f])[..n]) <= maximum) <==>
              SectionBytes(frames + [f]) <= maximum &&
              forall n :: 0 <= n <= |frames| ==> SectionBytes(frames[..n]) <= maximum
  {
    hide SectionBytes;
    var all := frames + [f];
    assert forall n :: 0 <= n <= |frames| ==> all[..n] == frames[..n];
    assert all[..|all|] == all;
  }

  lemma SectionNext(g: Gate, frames: seq<Frame>, f: Frame)
    requires f.Local() && g.encoded == SectionBytes(frames) && (!g.head ==> g.encoded == 0)
    ensures SectionBytes(frames + [f]) == g.Charge(f.kind, |f.Content()|)
  {
    hide SettingsLawful;
    var all := frames + [f];
    assert all[|frames|] == f && all[..|all| - 1] == frames;
  }

  /** One more frame keeps a lawful run lawful exactly when the gate admits it. */
  lemma LawfulNext(g: Gate, frames: seq<Frame>, f: Frame, maximum: nat, trailersAllowed: bool)
    requires Lawful(frames, maximum, trailersAllowed) && Remembers(g, frames, maximum, trailersAllowed)
    ensures Lawful(frames + [f], maximum, trailersAllowed) <==> g.Admit(f).Some?
  {
    hide Contiguous, Closed, Sectioned, HasHeaders, HasEnd, HasReset, SettingsLawful, SectionBytes;
    var all := frames + [f];
    ContiguousNext(g, frames, f, maximum, trailersAllowed);
    ClosedNext(g, frames, f, maximum, trailersAllowed);
    SectionedNext(g, frames, f, maximum, trailersAllowed);
    FundedNext(frames, f, maximum);
    assert forall i :: 0 <= i < |frames| ==> all[i] == frames[i];
    assert all[|frames|] == f && frames[..|frames|] == frames;
    if f.Local() { SectionNext(g, frames, f); }
  }

  lemma LawfulPrefix(frames: seq<Frame>, n: nat, maximum: nat, trailersAllowed: bool)
    requires n <= |frames| && Lawful(frames, maximum, trailersAllowed)
    ensures Lawful(frames[..n], maximum, trailersAllowed)
  {
    var some := frames[..n];
    assert forall i :: 0 <= i <= n ==> some[..i] == frames[..i];
  }

  /** A run of frames is let through exactly when it is lawful. */
  lemma {:induction false} AdmittedIffLawful(frames: seq<Frame>, maximum: nat, trailersAllowed: bool)
    ensures AdmitAll(Fresh(maximum, trailersAllowed), frames).Some? <==> Lawful(frames, maximum, trailersAllowed)
    ensures AdmitAll(Fresh(maximum, trailersAllowed), frames).Some? ==>
              Remembers(AdmitAll(Fresh(maximum, trailersAllowed), frames).value, frames, maximum, trailersAllowed)
    decreases |frames|
  {
    if frames != [] {
      var before, f := frames[..|frames| - 1], frames[|frames| - 1];
      assert frames == before + [f];
      AdmittedIffLawful(before, maximum, trailersAllowed);
      match AdmitAll(Fresh(maximum, trailersAllowed), before) {
        case None =>
          if Lawful(frames, maximum, trailersAllowed) { LawfulPrefix(frames, |before|, maximum, trailersAllowed); }
        case Some(g) =>
          LawfulNext(g, before, f, maximum, trailersAllowed);
          if g.Admit(f).Some? { RemembersNext(g, before, f, maximum, trailersAllowed); }
      }
    }
  }

  /** Whether a transport end behind these frames is a clean one. */
  predicate CleanEnd(frames: seq<Frame>) {
    HasHeaders(frames) && HasEnd(frames) && !HasReset(frames) && !frames[|frames| - 1].Opens()
  }

  lemma EndIffComplete(frames: seq<Frame>, maximum: nat, trailersAllowed: bool)
    requires Lawful(frames, maximum, trailersAllowed)
    ensures AdmitAll(Fresh(maximum, trailersAllowed), frames).Some?
    ensures Read(AdmitAll(Fresh(maximum, trailersAllowed), frames).value, []).End? <==> CleanEnd(frames)
  {
    AdmittedIffLawful(frames, maximum, trailersAllowed);
  }

  /**
   * Order safety of the default policy, in plain numbers: an accepted run opens with a SETTINGS frame that is
   * no ACK; a CONTINUATION stands exactly behind every header fragment that does not end its block; there is
   * one header block at most; DATA stands behind it; behind a reset or an END_STREAM there is no DATA and no
   * HEADERS; all fragments together are within the bound.
   */
  lemma OrderSafety(frames: seq<Frame>, maximum: nat, i: nat, j: nat)
    requires AdmitAll(Fresh(maximum, false), frames).Some? && i < j < |frames|
    ensures frames[0].kind == 4 && frames[0].flags % 2 == 0
    ensures frames[i + 1].kind == 9 <==> frames[i].kind in {1, 9} && frames[i].flags / 4 % 2 == 0
    ensures !(frames[i].kind == 1 && frames[j].kind == 1)
    ensures frames[j].kind == 0 ==> exists k :: 0 <= k < j && frames[k].kind == 1
    ensures frames[i].kind == 3 || (frames[i].kind in {0, 1} && frames[i].flags % 2 == 1) ==>
              frames[j].kind != 0 && frames[j].kind != 1
    ensures FragmentBytes(frames) <= maximum
  {
    hide SettingsLawful, Frame.Local, SectionBytes;
    AdmittedIffLawful(frames, maximum, false);
    var before := frames[..j];
    assert before[i] == frames[i];
    assert Closed(frames) && Sectioned(frames, false);
    if frames[j].kind == 0 {
      var k :| 0 <= k < |before| && before[k].kind == HEADERS;
      assert frames[k].kind == 1;
    }
    OneSection(frames, maximum);
    assert frames[..|frames|] == frames;
  }

  /** Octets of all header fragments, padding and priority not counted. */
  function FragmentBytes(frames: seq<Frame>): nat {
    if frames == [] then 0
    else
      var f := frames[|frames| - 1];
      FragmentBytes(frames[..|frames| - 1]) +
      (if f.kind == 1 && f.Strippable() then |f.Content()| else if f.kind == 9 then |f.payload| else 0)
  }

  /** With one header block, what the gate has counted is all of it. */
  lemma {:induction false} OneSection(frames: seq<Frame>, maximum: nat)
    requires Lawful(frames, maximum, false)
    ensures FragmentBytes(frames) == SectionBytes(frames)
    ensures !HasHeaders(frames) ==> SectionBytes(frames) == 0
    decreases |frames|
  {
    hide SettingsLawful;
    if frames != [] {
      var before, f := frames[..|frames| - 1], frames[|frames| - 1];
      LawfulPrefix(frames, |before|, maximum, false);
      OneSection(before, maximum);
      AdmittedIffLawful(before, maximum, false);
      AdmittedIffLawful(frames, maximum, false);
      if HasHeaders(before) {
        var k :| 0 <= k < |before| && before[k].kind == HEADERS;
        assert frames[k].kind == HEADERS;
      }
    }
  }

  /** When a transport end is clean, in plain numbers. */
  lemma EndSafety(frames: seq<Frame>, maximum: nat)
    requires AdmitAll(Fresh(maximum, false), frames).Some?
    ensures Read(AdmitAll(Fresh(maximum, false), frames).value, []).End? <==>
              && (exists i :: 0 <= i < |frames| && frames[i].kind == 1)
              && (exists i :: 0 <= i < |frames| && frames[i].kind in {0, 1} && frames[i].flags % 2 == 1)
              && (forall i :: 0 <= i < |frames| ==> frames[i].kind != 3)
              && !(frames[|frames| - 1].kind in {1, 9} && frames[|frames| - 1].flags / 4 % 2 == 0)
  {
    hide Lawful;
    AdmittedIffLawful(frames, maximum, false);
    EndIffComplete(frames, maximum, false);
    if HasEnd(frames) && !HasReset(frames) {
      var i :| 0 <= i < |frames| && frames[i].Ends();
      assert frames[i].kind != RST_STREAM;
    }
    if i :| 0 <= i < |frames| && frames[i].kind in {0, 1} && frames[i].flags % 2 == 1 { assert frames[i].Ends(); }
  }
}
