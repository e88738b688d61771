/** Reading frames off a transport, piece by piece, and whole transports at once. */
module Http2FrameReader {
  import opened Bytes
  import opened Http2Frames

  /** What a transport still holds; after it comes a clean end of input. */
  class ByteStream {
    var unread: seq<byte>

    constructor (octets: seq<byte>)
      ensures unread == octets
    {
      unread := octets;
    }

    method ReadExact(n: nat) returns (octets: Option<seq<byte>>)
      modifies this
      ensures n <= |old(unread)| ==> octets == Some(old(unread)[..n]) && unread == old(unread)[n..]
      ensures n > |old(unread)| ==> octets == None && unread == []
    {
      if n <= |unread| {
        octets, unread := Some(unread[..n]), unread[n..];
      } else {
        octets, unread := None, [];
      }
    }
  }

  datatype FrameRead = FrameGot(frame: Frame) | TransportEnd | ReadRefused

  /** The caller sees the content, not the wire payload. */
  function Handed(f: Frame): Frame
    requires f.kind == HEADERS ==> f.Strippable()
  {
    f.(payload := f.Content())
  }

  function Told(r: Reading): FrameRead {
    match r
    case Refused => ReadRefused
    case End => TransportEnd
    case Got(f, _, _) => if f.kind == HEADERS && !f.Strippable() then ReadRefused else FrameGot(Handed(f))
  }

  /** Everything about a frame's own head that is checked before its payload is read. */
  predicate HeadLocal(h: Head) {
    && h.length <= MAXIMUM_FRAME_BYTES
    && (h.kind == DATA || h.kind == HEADERS || h.kind == CONTINUATION ==> h.stream == 1)
    && (h.kind == PRIORITY ==> h.stream == 1 && h.length == 5)
    && (h.kind == RST_STREAM ==> h.stream == 1 && h.length == 4)
    && (h.kind == SETTINGS ==> h.stream == 0 && h.length % 6 == 0 && (Flag(h.flags, 1) ==> h.length == 0))
    && h.kind != PUSH_PROMISE
    && (h.kind == PING ==> h.stream == 0 && h.length == 8)
    && (h.kind == GOAWAY ==> h.stream == 0 && h.length >= 8)
    && (h.kind == WINDOW_UPDATE ==> h.stream <= 1 && h.length == 4)
  }

  /** What is left to check once the payload is there. */
  predicate PayloadLocal(f: Frame) {
    && (f.kind == DATA && f.Padded() ==> f.Padding() < |f.payload|)
    && (f.kind == PRIORITY && |f.payload| == 5 ==> U31(f.payload[..4]) != f.stream)
    && (f.kind == SETTINGS && |f.payload| % 6 == 0 ==> SettingsLawful(f.payload))
    && (f.kind == WINDOW_UPDATE && |f.payload| == 4 ==> U31(f.payload) != 0)
  }

  lemma LocalSplit(f: Frame)
    ensures f.Local() <==>
              && HeadLocal(Head(|f.payload|, f.kind, f.flags, f.stream)) && PayloadLocal(f)
              && (f.kind == HEADERS ==> f.Strippable())
  {
    hide SettingsLawful, U31;
  }

  /** Settings are checked in order; unknown ones pass. */
  method CheckSettings(payload: seq<byte>) returns (ok: bool)
    requires |payload| % 6 == 0
    ensures ok == SettingsLawful(payload)
  {
    hide U16, U32, SettingLawful;
    var rest := payload;
    while rest != []
      invariant |rest| % 6 == 0
      invariant SettingsLawful(rest) == SettingsLawful(payload)
      decreases |rest|
    {
      if !SettingLawful(U16(rest[..2]), U32(rest[2..6])) {
        return false;
      }
      rest := rest[6..];
    }
    ok := true;
  }

  /** Consistency of one control payload whose length has been checked. */
  method ValidateControlPayload(f: Frame) returns (ok: bool)
    requires HeadLocal(Head(|f.payload|, f.kind, f.flags, f.stream))
    ensures ok == PayloadLocal(f)
  {
    hide SettingsLawful, U31, Flag;
    if f.kind == DATA && Flag(f.flags, 8) {
      ok := f.payload != [] && f.payload[0] < |f.payload|;
    } else if f.kind == PRIORITY {
      ok := U31(f.payload[..4]) != f.stream;
    } else if f.kind == SETTINGS {
      ok := CheckSettings(f.payload);
    } else if f.kind == WINDOW_UPDATE {
      ok := U31(f.payload) != 0;
    } else {
      ok := true;
    }
  }

  function Skipped(h: Head): nat {
    (if Flag(h.flags, 8) then 1 else 0) + (if Flag(h.flags, 32) then 5 else 0)
  }

  function PaddingOf(h: Head, input: seq<byte>): nat {
    if Flag(h.flags, 8) && input != [] then input[0] else 0
  }

  /** What stands in front of a header fragment is all there and leaves room for it. */
  predicate PreludeLawful(h: Head, input: seq<byte>) {
    && Skipped(h) <= |input| && Skipped(h) + PaddingOf(h, input) <= h.length
    && (Flag(h.flags, 32) ==> U31(input[Skipped(h) - 5..Skipped(h) - 1]) != 1)
  }

  /** The announced fragment passes the bound: known before any of it arrives. */
  predicate Oversized(g: Gate, h: Head, input: seq<byte>) {
    if h.kind == HEADERS then PreludeLawful(h, input)
        && g.OverBound(HEADERS, h.length - Skipped(h) - PaddingOf(h, input))
    else g.OverBound(h.kind, h.length)
  }

  function FrameOf(h: Head, input: seq<byte>): Frame
    requires h.length <= |input|
  {
    Frame(h.kind, h.flags, h.stream, input[..h.length])
  }

  /** A head already read, and the input behind it. */
  function Completed(g: Gate, h: Head, input: seq<byte>): Reading {
    if |input| < h.length then Refused
    else match g.Admit(FrameOf(h, input))
      case None => Refused
      case Some(next) => Got(FrameOf(h, input), next, input[h.length..])
  }

  lemma FrontSlice(input: seq<byte>, n: nat, i: nat, j: nat)
    requires i <= j <= n <= |input|
    ensures input[..n][i..j] == input[i..][..j - i] == input[i..j]
  {
  }

  lemma PreludeDecides(h: Head, input: seq<byte>)
    ensures h.kind == HEADERS && h.length <= |input| ==>
              && (FrameOf(h, input).Strippable() <==> PreludeLawful(h, input))
              && (PreludeLawful(h, input) ==>
                    FrameOf(h, input).Content() == input[Skipped(h)..][..h.length - Skipped(h) - PaddingOf(h, input)])
  {
    hide U31;
    if h.kind == HEADERS && h.length <= |input| {
      var f := FrameOf(h, input);
      if Flag(h.flags, 8) && h.length == 0 { assert !PreludeLawful(h, input); }
      if f.Skip() <= h.length && f.Prioritized() { FrontSlice(input, h.length, f.Skip() - 5, f.Skip() - 1); }
      if f.Skip() + f.Padding() <= h.length { FrontSlice(input, h.length, f.Skip(), h.length - f.Padding()); }
    }
  }

  /** Of a HEADERS frame nothing is left to check once its prelude has been taken off. */
  lemma HeadersContent(h: Head, wire: Frame, content: seq<byte>)
    requires h.kind == wire.kind == HEADERS && HeadLocal(h) && |content| <= h.length
    ensures HeadLocal(Head(|content|, h.kind, h.flags, h.stream)) && PayloadLocal(wire)
    ensures PayloadLocal(Frame(h.kind, h.flags, h.stream, content))
  {
  }

  /** All of the frame is there and its fragment is within the bound. */
  predicate ContentTaken(g: Gate, h: Head, input: seq<byte>) {
    && h.length <= |input|
    && (h.kind == HEADERS ==> FrameOf(h, input).Strippable())
    && !g.OverBound(h.kind, |FrameOf(h, input).Content()|)
  }

  /** The gate once the frame's fragment is charged. */
  function Accounted(g: Gate, f: Frame): Gate
    requires f.kind == HEADERS ==> f.Strippable()
  {
    g.(encoded := g.Charge(f.kind, |f.Content()|), first := false, head := g.head || f.kind == HEADERS,
       trailer := g.trailer || (g.head && f.kind == HEADERS), continuation := f.Opens())
  }

  /** What is decided once all of a frame has arrived behind a head that may stand here. */
  lemma Decided(g: Gate, h: Head, input: seq<byte>)
    requires HeadLocal(h) && g.InOrder(h.kind, h.flags, h.stream)
    ensures Completed(g, h, input) ==
            if !ContentTaken(g, h, input) || !PayloadLocal(FrameOf(h, input)) then Refused
            else
              var f := FrameOf(h, input);
              Got(f, Accounted(g, f).(ended := g.ended || f.Ends(), reset := g.reset || h.kind == RST_STREAM),
                  input[h.length..])
  {
    if h.length <= |input| { LocalSplit(FrameOf(h, input)); }
  }

  /** A head that may not stand here refuses whatever is behind it. */
  lemma HeadDecides(g: Gate, input: seq<byte>)
    requires |input| >= 9
    ensures var h := HeadOf(input[..9]);
            Read(g, input) == if HeadLocal(h) && g.InOrder(h.kind, h.flags, h.stream) then Completed(g, h, input[9..])
                else Refused
  {
    hide U31, U24, SettingsLawful;
    var h := HeadOf(input[..9]);
    if |input| >= 9 + h.length {
      var f := FrameOf(h, input[9..]);
      assert input[9..][..h.length] == input[9..9 + h.length];
      assert input[9..][h.length..] == input[9 + h.length..];
      LocalSplit(f);
    }
  }

  class ResponseFrameReader {
    const maximumHeaderBytes: nat
    const allowTrailerSection: bool
    var encodedHeaderBytes: nat
    var firstFrame: bool
    var headStarted: bool
    var continuation: bool
    var streamEnded: bool
    var streamReset: bool
    var trailerStarted: bool
    var headerLimitExceeded: bool
    var poisoned: bool

    ghost function View(): Gate reads this {
      Gate(maximumHeaderBytes, encodedHeaderBytes, firstFrame, headStarted, continuation, streamEnded, streamReset,
           allowTrailerSection, trailerStarted)
    }

    constructor (maximumHeaderBytes: nat, allowTrailerSection: bool)
      ensures View() == Fresh(maximumHeaderBytes, allowTrailerSection) && !poisoned && !headerLimitExceeded
    {
      this.maximumHeaderBytes, this.allowTrailerSection := maximumHeaderBytes, allowTrailerSection;
      encodedHeaderBytes, firstFrame, headStarted, continuation := 0, true, false, false;
      streamEnded, streamReset, trailerStarted, headerLimitExceeded, poisoned := false, false, false, false, false;
    }

    /** A refused read, a clean end and a read given up halfway all poison; only a frame lets another follow. */
    method ReadNext(stream: ByteStream) returns (r: FrameRead)
      modifies this, stream
      ensures old(poisoned) ==> r == ReadRefused && poisoned && stream.unread == old(stream.unread)
      ensures !old(poisoned) ==> r == Told(Read(old(View()), old(stream.unread)))
      ensures poisoned == !r.FrameGot?
      ensures r.FrameGot? ==> Read(old(View()), old(stream.unread)).gate == View()
      ensures r.FrameGot? ==> Read(old(View()), old(stream.unread)).rest == stream.unread
    {
      if poisoned {
        return ReadRefused;
      }
      poisoned := true;
      r := ReadFrame(stream);
      if r.FrameGot? {
        poisoned := false;
      }
    }

    /** The head of the next frame, unless the transport has ended. */
    method ReadHead(stream: ByteStream) returns (h: Option<Head>, end: bool)
      modifies stream
      ensures end == (old(stream.unread) == [])
      ensures h == if |old(stream.unread)| < 9 then None else Some(HeadOf(old(stream.unread)[..9]))
      ensures h.Some? ==> stream.unread == old(stream.unread)[9..]
    {
      end, h := false, None;
      if stream.unread == [] {
        end := true;
        return;
      }
      ghost var input := stream.unread;
      var first := stream.ReadExact(1);
      var others := stream.ReadExact(8);
      if others.Some? {
        var head := first.value + others.value;
        assert head == input[..9] && stream.unread == input[9..];
        h := Some(HeadOf(head));
      }
    }

    /** Whether a head may stand here, decided before anything behind it is read. */
    method CheckHead(h: Head) returns (ok: bool)
      ensures ok == (HeadLocal(h) && View().InOrder(h.kind, h.flags, h.stream))
    {
      if h.length > MAXIMUM_FRAME_BYTES
        || (firstFrame && (h.kind != SETTINGS || Flag(h.flags, 1)))
        || (continuation && (h.kind != CONTINUATION || h.stream != 1))
      {
        return false;
      }
      match h.kind {
        case 0 => ok := h.stream == 1 && headStarted && !streamEnded;
        case 1 =>
          ok := h.stream == 1 && !streamEnded &&
            !(headStarted && (!allowTrailerSection || trailerStarted || !Flag(h.flags, 1)));
        case 2 => ok := h.stream == 1 && h.length == 5;
        case 3 => ok := h.stream == 1 && h.length == 4;
        case 4 => ok := h.stream == 0 && h.length % 6 == 0 && !(Flag(h.flags, 1) && h.length != 0);
        case 5 => ok := false;
        case 6 => ok := h.stream == 0 && h.length == 8;
        case 7 => ok := h.stream == 0 && h.length >= 8;
        case 8 => ok := (h.stream == 0 || h.stream == 1) && h.length == 4;
        case 9 => ok := h.stream == 1 && continuation;
        case _ => ok := true;
      }
    }

    /** The padding length and priority in front of a header fragment. */
    method ReadPrelude(stream: ByteStream, h: Head) returns (ok: bool, remaining: nat, padding: nat)
      modifies stream
      ensures ok == PreludeLawful(h, old(stream.unread))
      ensures ok ==> Skipped(h) <= |old(stream.unread)| && Skipped(h) + padding <= h.length
      ensures ok ==> stream.unread == old(stream.unread)[Skipped(h)..]
      ensures ok ==> padding == PaddingOf(h, old(stream.unread)) && remaining == h.length - Skipped(h) - padding
    {
      hide U31, U24;
      ghost var input := stream.unread;
      ok, remaining, padding := false, h.length, 0;
      if Flag(h.flags, 8) {
        if remaining < 1 { return; }
        remaining := remaining - 1;
        var octet := stream.ReadExact(1);
        if octet.None? { return; }
        padding := octet.value[0];
      }
      if Flag(h.flags, 32) {
        if remaining < 5 { return; }
        remaining := remaining - 5;
        assert stream.unread == input[Skipped(h) - 5..];
        var priority := stream.ReadExact(5);
        if priority.None? { return; }
        assert priority.value[..4] == input[Skipped(h) - 5..Skipped(h) - 1];
        if U31(priority.value[..4]) == 1 { return; }
      }
      if remaining < padding { return; }
      remaining := remaining - padding;
      ok := true;
    }

    /** A fragment is charged before it is read. */
    method Account(h: Head, remaining: nat) returns (ok: bool)
      modifies this
      ensures var charge := old(View()).Charge(h.kind, remaining);
              && ok == !old(View()).OverBound(h.kind, remaining)
              && headerLimitExceeded == (old(headerLimitExceeded) || !ok)
              && poisoned == old(poisoned)
              && (ok ==> View() == old(View()).(
                   encoded := charge, head := old(headStarted) || h.kind == HEADERS,
                   trailer := old(trailerStarted) || (old(headStarted) && h.kind == HEADERS),
                   continuation := if h.kind == HEADERS || h.kind == CONTINUATION then !Flag(h.flags, 4)
                       else old(continuation)))
    {
      ok := true;
      if h.kind == HEADERS {
        if headStarted {
          trailerStarted := true;
          encodedHeaderBytes := 0;
        }
        headStarted := true;
      }
      if h.kind == HEADERS || h.kind == CONTINUATION {
        if encodedHeaderBytes + remaining > maximumHeaderBytes {
          headerLimitExceeded := true;
          return false;
        }
        encodedHeaderBytes := encodedHeaderBytes + remaining;
        continuation := !Flag(h.flags, 4);
      }
    }

    method ReadPayload(stream: ByteStream, remaining: nat, padding: nat) returns (payload: Option<seq<byte>>)
      modifies stream
      ensures payload == if remaining + padding > |old(stream.unread)| then None
                else Some(old(stream.unread)[..remaining])
      ensures payload.Some? ==> stream.unread == old(stream.unread)[remaining + padding..]
    {
      payload := stream.ReadExact(remaining);
      if payload.Some? {
        var discarded := stream.ReadExact(padding);
        if discarded.None? { payload := None; }
      }
    }

    /** The content behind a head that may stand here, charged before it is read. */
    method ReadContent(stream: ByteStream, h: Head) returns (content: Option<seq<byte>>)
      requires HeadLocal(h) && View().InOrder(h.kind, h.flags, h.stream)
      modifies this, stream
      ensures poisoned == old(poisoned)
      ensures headerLimitExceeded == (old(headerLimitExceeded) || Oversized(old(View()), h, old(stream.unread)))
      ensures content.Some? <==> ContentTaken(old(View()), h, old(stream.unread))
      ensures content.Some? ==>
                var f := FrameOf(h, old(stream.unread));
                && |content.value| <= h.length && content.value == f.Content()
                    && stream.unread == old(stream.unread)[h.length..]
                && View() == Accounted(old(View()), f)
    {
      hide U31, Flag, HeadLocal, PreludeLawful, Frame.Strippable;
      ghost var g, input := View(), stream.unread;
      PreludeDecides(h, input);
      firstFrame := false;
      var remaining, padding, ok := h.length, 0, true;
      content := None;
      if h.kind == HEADERS {
        ok, remaining, padding := ReadPrelude(stream, h);
        if !ok { return; }
      }
      ok := Account(h, remaining);
      if !ok { return; }
      content := ReadPayload(stream, remaining, padding);
    }

    method ReadBody(stream: ByteStream, h: Head) returns (r: FrameRead)
      requires HeadLocal(h) && View().InOrder(h.kind, h.flags, h.stream)
      modifies this, stream
      ensures r == Told(Completed(old(View()), h, old(stream.unread)))
      ensures poisoned == old(poisoned)
      ensures headerLimitExceeded == (old(headerLimitExceeded) || Oversized(old(View()), h, old(stream.unread)))
      ensures r.FrameGot? ==> Completed(old(View()), h, old(stream.unread)).gate == View()
      ensures r.FrameGot? ==> Completed(old(View()), h, old(stream.unread)).rest == stream.unread
    {
      hide SettingsLawful, HeadLocal, PayloadLocal, Completed, Frame.Strippable, Oversized, Gate.OverBound, Gate.Charge;
      ghost var g, input := View(), stream.unread;
      Decided(g, h, input);
      var content := ReadContent(stream, h);
      if content.None? { return ReadRefused; }
      var frame := Frame(h.kind, h.flags, h.stream, content.value);
      if h.kind == HEADERS { HeadersContent(h, FrameOf(h, input), content.value); }
      var ok := Settle(frame);
      r := if ok then FrameGot(frame) else ReadRefused;
    }

    method Settle(f: Frame) returns (ok: bool)
      requires HeadLocal(Head(|f.payload|, f.kind, f.flags, f.stream))
      modifies this
      ensures ok == PayloadLocal(f) && poisoned == old(poisoned) && headerLimitExceeded == old(headerLimitExceeded)
      ensures ok ==> View() == old(View()).(
                       ended := old(streamEnded) || f.Ends(), reset := old(streamReset) || f.kind == RST_STREAM)
    {
      ok := ValidateControlPayload(f);
      if !ok { return; }
      if (f.kind == DATA || f.kind == HEADERS) && Flag(f.flags, 1) {
        streamEnded := true;
      }
      if f.kind == RST_STREAM {
        streamEnded := true;
        streamReset := true;
      }
    }

    method ReadFrame(stream: ByteStream) returns (r: FrameRead)
      modifies this, stream
      ensures r == Told(Read(old(View()), old(stream.unread)))
      ensures poisoned == old(poisoned)
      ensures r.FrameGot? ==> Read(old(View()), old(stream.unread)).gate == View()
      ensures r.FrameGot? ==> Read(old(View()), old(stream.unread)).rest == stream.unread
    {
      hide SettingsLawful, U31, U24;
      ghost var g, input := View(), stream.unread;
      var h, end := ReadHead(stream);
      if end {
        return if headStarted && streamEnded && !continuation && !streamReset then TransportEnd else ReadRefused;
      }
      if h.None? {
        return ReadRefused;
      }
      HeadDecides(g, input);
      var ok := CheckHead(h.value);
      if !ok {
        return ReadRefused;
      }
      r := ReadBody(stream, h.value);
    }
  }

  // ----- a whole transport

  /** What a reader hands on until it stops, and whether it stopped with an end proof. */
  datatype Transcript = Transcript(frames: seq<Frame>, proof: bool)

  function ReadAll(g: Gate, input: seq<byte>): Transcript
    decreases |input|
  {
    match Read(g, input)
    case Refused => Transcript([], false)
    case End => Transcript([], true)
    case Got(f, next, rest) => Transcript([f] + ReadAll(next, rest).frames, ReadAll(next, rest).proof)
  }

  /** All the frames an input holds, whatever they are, and the piece of one it may stop in. */
  function CutAll(input: seq<byte>): (seq<Frame>, seq<byte>)
    decreases |input|
  {
    match Cut(input)
    case None => ([], input)
    case Some((f, rest)) => ([f] + CutAll(rest).0, CutAll(rest).1)
  }

  predicate Explains(frames: seq<Frame>, maximum: nat, trailers: bool, input: seq<byte>, t: Transcript) {
    var (cut, left) := CutAll(input);
    var n := |t.frames|;
    && n <= |cut| && t.frames == cut[..n]
    && Lawful(frames + t.frames, maximum, trailers)
    && (n < |cut| ==> !Lawful(frames + cut[..n + 1], maximum, trailers))
    && (t.proof <==> n == |cut| && left == [] && CleanEnd(frames + cut))
  }

  lemma {:induction false} ReadsFrom(g: Gate, frames: seq<Frame>, maximum: nat, trailers: bool, input: seq<byte>)
    requires AdmitAll(Fresh(maximum, trailers), frames) == Some(g)
    ensures Explains(frames, maximum, trailers, input, ReadAll(g, input))
    decreases |input|
  {
    hide Gate.Admit, Lawful, HeadOf, Explains, CleanEnd;
    if Cut(input).None? {
      ReadsNothing(g, frames, maximum, trailers, input);
    } else {
      var (f, rest) := Cut(input).value;
      var longer := frames + [f];
      assert longer[..|longer| - 1] == frames && longer[|longer| - 1] == f;
      if g.Admit(f).Some? {
        ReadsFrom(g.Admit(f).value, longer, maximum, trailers, rest);
        ExplainsMore(frames, maximum, trailers, input, f, rest, ReadAll(g.Admit(f).value, rest));
      } else {
        AdmittedIffLawful(frames, maximum, trailers);
        AdmittedIffLawful(longer, maximum, trailers);
        ExplainsStop(frames, maximum, trailers, input, f, rest);
      }
    }
  }

  lemma ReadsNothing(g: Gate, frames: seq<Frame>, maximum: nat, trailers: bool, input: seq<byte>)
    requires AdmitAll(Fresh(maximum, trailers), frames) == Some(g) && Cut(input).None?
    ensures Explains(frames, maximum, trailers, input, ReadAll(g, input))
  {
    hide Lawful, HeadOf;
    AdmittedIffLawful(frames, maximum, trailers);
    EndIffComplete(frames, maximum, trailers);
    assert frames + [] == frames;
  }

  lemma ExplainsStop(frames: seq<Frame>, maximum: nat, trailers: bool, input: seq<byte>, f: Frame, rest: seq<byte>)
    requires Cut(input) == Some((f, rest)) && Lawful(frames, maximum, trailers)
               && !Lawful(frames + [f], maximum, trailers)
    ensures Explains(frames, maximum, trailers, input, Transcript([], false))
  {
    hide Lawful, HeadOf;
    assert frames + [] == frames;
    assert CutAll(input).0[..1] == [f];
  }

  lemma ExplainsMore(frames: seq<Frame>, maximum: nat, trailers: bool, input: seq<byte>, f: Frame, rest: seq<byte>,
                     u: Transcript)
    requires Cut(input) == Some((f, rest)) && Explains(frames + [f], maximum, trailers, rest, u)
    ensures Explains(frames, maximum, trailers, input, Transcript([f] + u.frames, u.proof))
  {
    hide Lawful, HeadOf;
    var n, cut, longer := |u.frames|, CutAll(rest).0, frames + [f];
    var all := CutAll(input).0;
    assert all[..n + 1] == [f] + cut[..n];
    assert longer + u.frames == frames + ([f] + u.frames) && longer + cut == frames + all;
    if n < |cut| {
      assert all[..n + 2] == [f] + cut[..n + 1];
      assert longer + cut[..n + 1] == frames + all[..n + 2];
    }
  }

  /**
   * Over every transport: the reader hands on the longest lawful run of the frames that are there, in
   * order, and proves the end exactly when those are all of them, nothing is left over, and they hold
   * a complete header section, an end of stream and no reset.
   */
  lemma WholeTransport(maximum: nat, trailers: bool, input: seq<byte>)
    ensures var t := ReadAll(Fresh(maximum, trailers), input);
            var (cut, left) := CutAll(input);
            var n := |t.frames|;
            && n <= |cut| && t.frames == cut[..n] && Lawful(cut[..n], maximum, trailers)
            && (n < |cut| ==> !Lawful(cut[..n + 1], maximum, trailers))
            && (t.proof <==> n == |cut| && left == [] && CleanEnd(cut))
  {
    ReadsFrom(Fresh(maximum, trailers), [], maximum, trailers, input);
    var t, cut := ReadAll(Fresh(maximum, trailers), input), CutAll(input).0;
    assert [] + t.frames == t.frames && [] + cut == cut;
    if |t.frames| < |cut| { assert [] + cut[..|t.frames| + 1] == cut[..|t.frames| + 1]; }
  }
}
