/**
 * The full-duplex driver of one exchange: a reader and a writer joined by a channel of capacity one.
 *
 * `Step` is the transition relation, one label per thing either side (or the network) can do next; a
 * sequence of labels is an interleaving.  A frame is written whole: a write that fails or is cancelled
 * ends the exchange.  `wire`, `actions`, `received`, `controls` and `handled` record what has been written,
 * what the send windows were told, which response frames were accepted, and which control frames the
 * reader passed on and the writer dealt with.
 */
module Http2Driver {
  import opened Bytes
  import opened HpackTable
  import opened Http2Frames
  import Flow = Http2Flow
  import Request = Http2Request
  import Assembly = Http2Response
  import R = Http2FrameReader

  datatype Outgoing = Control(frame: Frame) | Grant(bytes: nat) | Finish

  datatype Writer = Heading(sent: nat) | Sending | Finishing | Resetting | Leaving | Shut

  datatype Reader = Reading | Offering(command: Outgoing) | Awaiting | Closing | Draining
    | Done(result: (nat, seq<Field>, seq<byte>))

  /** The request, what was negotiated before it, and the response contract. */
  datatype Exchange = Exchange(block: seq<byte>, body: seq<byte>, negotiated: seq<Frame>, headMaximum: nat,
                               contract: Assembly.Contract)
  {
    function Head(): seq<Frame> { Request.Frames(block, body == []) }

    function Windows(): Flow.Windows { Flow.Run(Flow.START, Observations(negotiated)) }

    /** The frame reader has already taken the peer's settings. */
    function Gate(): Gate { Fresh(headMaximum, false).(first := false) }
  }

  function Observations(frames: seq<Frame>): seq<Flow.Action> {
    seq(|frames|, i requires 0 <= i < |frames| => Flow.Observe(frames[i]))
  }

  datatype State = State(
    writer: Writer, reader: Reader, channel: Option<Outgoing>, confirmed: bool,
    position: nat, windows: Flow.Windows, gate: Gate, response: Assembly.Response, failed: bool,
    wire: seq<Frame>, actions: seq<Flow.Action>, received: seq<Frame>, controls: seq<Frame>, handled: seq<Frame>)

  function Initial(e: Exchange): State {
    State(Heading(0), Reading, None, false, 0, e.Windows(), e.Gate(), Assembly.Unstarted(), false, [], [], [], [], [])
  }

  datatype Label =
    | WriteHead | WriteData | StartControls | Take | WriteReset | WriteGoaway | Disconnected
    | Receive(frame: Frame) | Offer | Confirm | TransportEnd | Drain(frame: Frame) | Stop
    | Fail

  // ----- writer

  const SETTINGS_ACK: Frame := Frame(SETTINGS, 1, 0, [])
  const RESET: Frame := Frame(RST_STREAM, 0, 1, [0, 0, 0, 0])
  const GOODBYE: Frame := Frame(GOAWAY, 0, 0, [0, 0, 0, 0, 0, 0, 0, 0])

  function Put(s: State, f: Frame): State { s.(wire := s.wire + [f]) }

  function DataFrame(body: seq<byte>, position: nat, count: nat): Frame
    requires position + count <= |body|
  {
    Frame(DATA, if position + count == |body| then 1 else 0, 1, body[position..position + count])
  }

  /** Reserved before it is written. */
  function Data(e: Exchange, s: State): Option<State> {
    if s.position >= |e.body| then None
    else
      var remaining := |e.body| - s.position;
      var count := s.windows.Allowance(remaining);
      if count == 0 then None
      else Some(Put(s, DataFrame(e.body, s.position, count)).(
        position := s.position + count, windows := s.windows.Reserved(remaining),
        actions := s.actions + [Flow.Reserve(remaining)]))
  }

  function Observed(s: State, f: Frame): Option<State> {
    match s.windows.Observed(f)
    case None => None
    case Some(next) => Some(s.(windows := next, actions := s.actions + [Flow.Observe(f)]))
  }

  /** A control frame the peer sent: observed, acknowledged, or both. */
  function Heed(s: State, f: Frame, requestComplete: bool): Option<State> {
    if f.kind == SETTINGS then
      (match Observed(s, f) case None => None case Some(next) => Some(Put(next, SETTINGS_ACK)))
    else if f.kind == WINDOW_UPDATE then
      if requestComplete && f.stream == 1 then Some(s) else Observed(s, f)
    else if f.kind == PING then Some(Put(s, Pong(f)))
    else None
  }

  function Pong(f: Frame): Frame { Frame(PING, 1, 0, f.payload) }

  /** Any command but the last one; a refusal ends the exchange. */
  function Handle(s: State, command: Outgoing, requestComplete: bool): Option<State> {
    match command
    case Finish => None
    case Grant(bytes) =>
      if bytes >= 0x1_0000_0000 then None
      else Some(Put(Put(s, Flow.Update(0, bytes)), Flow.Update(1, bytes)).(confirmed := true))
    case Control(f) => Heed(s.(handled := s.handled + [f]), f, requestComplete)
  }

  function Failed(s: State): State { s.(failed := true) }

  function OrFailed(s: State, next: Option<State>): State {
    match next case None => Failed(s) case Some(n) => n
  }

  function Taken(e: Exchange, s: State): Option<State> {
    if s.channel.None? || (s.writer != Finishing && (s.writer != Sending || s.position >= |e.body|)) then None
    else
      var free := s.(channel := None);
      if s.channel.value == Finish then Some(free.(writer := if s.position < |e.body| then Resetting else Leaving))
      else Some(OrFailed(free, Handle(free, s.channel.value, s.writer == Finishing)))
  }

  function WriterStep(e: Exchange, s: State, l: Label): Option<State> {
    match l
    case WriteHead =>
      if !s.writer.Heading? then None
      else if s.writer.sent < |e.Head()| then
          Some(Put(s, e.Head()[s.writer.sent]).(writer := Heading(s.writer.sent + 1)))
      else Some(s.(writer := Sending))
    case WriteData => if s.writer != Sending then None else Data(e, s)
    case StartControls => if s.writer != Sending || s.position < |e.body| then None else Some(s.(writer := Finishing))
    case Take => Taken(e, s)
    case Disconnected =>
      if s.channel.None? && s.reader.Done? && (s.writer == Sending || s.writer == Finishing) then Some(Failed(s))
      else None
    case WriteReset => if s.writer != Resetting then None else Some(Put(s, RESET).(writer := Leaving))
    case WriteGoaway => if s.writer != Leaving then None else Some(Put(s, GOODBYE).(writer := Shut))
    case _ => None
  }

  // ----- reader

  predicate ResponseKind(kind: byte) { kind == DATA || kind == HEADERS || kind == CONTINUATION }

  /** The peer may leave only behind our stream and without an error. */
  predicate PoliteGoaway(f: Frame) {
    |f.payload| >= 8 && U31(f.payload[..4]) >= 1 && U32(f.payload[4..8]) == 0
  }

  /** Frames that end an exchange whose response is still open. */
  predicate Intolerable(f: Frame) {
    || f.kind == RST_STREAM
    || (f.kind == SETTINGS && f.Ack())
    || (f.kind == GOAWAY && !PoliteGoaway(f))
  }

  function Accepted(e: Exchange, s: State, f: Frame): State {
    match Assembly.Accept(e.contract, s.response, f)
    case None => Failed(s)
    case Some(r) =>
      var next := s.(response := r, received := s.received + [f]);
      if r.ended then next.(reader := Closing)
      else if Assembly.Credit(f) == 0 then next
      else next.(reader := Offering(Grant(Assembly.Credit(f))))
  }

  function Classified(e: Exchange, s: State, f: Frame): State {
    if ResponseKind(f.kind) then Accepted(e, s, f)
    else if Intolerable(f) then Failed(s)
    else if f.kind == SETTINGS || f.kind == WINDOW_UPDATE || (f.kind == PING && !f.Ack()) then
      s.(reader := Offering(Control(f)), controls := s.controls + [f])
    else s
  }

  function ReaderStep(e: Exchange, s: State, l: Label): Option<State> {
    match l
    case Receive(f) =>
      if s.reader != Reading || s.gate.Admit(f).None? then None
      else Some(Classified(e, s.(gate := s.gate.Admit(f).value), R.Handed(f)))
    case Offer =>
      if s.channel.Some? || s.writer == Shut then None
      else if s.reader.Offering? then
        Some(s.(channel := Some(s.reader.command), reader := if s.reader.command.Grant? then Awaiting else Reading))
      else if s.reader == Closing then Some(s.(channel := Some(Finish), reader := Draining))
      else None
    case Confirm =>
      if s.reader != Awaiting || !s.confirmed then None else Some(s.(reader := Reading, confirmed := false))
    case TransportEnd =>
      if s.reader != Reading then None
      else if !s.gate.Complete() then Some(Failed(s))
      else (match Assembly.Finish(e.contract, s.response)
        case None => Some(Failed(s))
        case Some(r) => Some(s.(reader := Done(r))))
    case Drain(f) =>
      if s.reader != Draining || s.gate.Admit(f).None? then None
      else
        var next := s.(gate := s.gate.Admit(f).value);
        if f.stream == 1 && ResponseKind(f.kind) then Some(Failed(next)) else Some(next)
    case Stop =>
      if s.reader != Draining then None
      else (match Assembly.Finish(e.contract, s.response)
        case None => Some(Failed(s))
        case Some(r) => Some(s.(reader := Done(r))))
    case Fail => Some(Failed(s))
    case _ => None
  }

  /** `None` is a label that cannot happen here; nothing happens after a failure. */
  function Step(e: Exchange, s: State, l: Label): Option<State> {
    if s.failed then None
    else match WriterStep(e, s, l) case Some(next) => Some(next) case None => ReaderStep(e, s, l)
  }

  function Run(e: Exchange, labels: seq<Label>): Option<State> {
    if labels == [] then Some(Initial(e))
    else match Run(e, labels[..|labels| - 1]) case None => None case Some(s) => Step(e, s, labels[|labels| - 1])
  }

  // ----- what has been written

  function DataPart(wire: seq<Frame>): seq<byte> {
    if wire == [] then []
    else DataPart(wire[..|wire| - 1]) + (if wire[|wire| - 1].kind == DATA then wire[|wire| - 1].payload else [])
  }

  /** Receive credit told to the peer on a stream. */
  function Granted(wire: seq<Frame>, id: nat): nat {
    if wire == [] then 0
    else
      var f := wire[|wire| - 1];
      Granted(wire[..|wire| - 1], id) +
          (if f.kind == WINDOW_UPDATE && f.stream == id && |f.payload| == 4 then U31(f.payload) else 0)
  }

  predicate HasKind(wire: seq<Frame>, kind: byte) {
    exists i :: 0 <= i < |wire| && wire[i].kind == kind
  }

  /** Every DATA frame is non-empty, fits a frame, and ends the stream exactly when it reaches the end. */
  predicate DataFramesOk(wire: seq<Frame>, body: seq<byte>) {
    forall i :: 0 <= i < |wire| && wire[i].kind == DATA ==>
      && 0 < |wire[i].payload| <= MAXIMUM_FRAME_BYTES && wire[i].stream == 1
      && (wire[i].EndStream() <==> |DataPart(wire[..i + 1])| == |body|)
  }

  lemma PutSums(wire: seq<Frame>, f: Frame)
    ensures DataPart(wire + [f]) == DataPart(wire) + (if f.kind == DATA then f.payload else [])
    ensures forall id: nat :: Granted(wire + [f], id) ==
              Granted(wire, id) + if f.kind == WINDOW_UPDATE && f.stream == id && |f.payload| == 4 then U31(f.payload)
                  else 0
  {
    hide U31;
    assert (wire + [f])[..|wire|] == wire && (wire + [f])[|wire|] == f;
  }

  lemma PutKind(wire: seq<Frame>, f: Frame, kind: byte)
    ensures HasKind(wire + [f], kind) <==> HasKind(wire, kind) || f.kind == kind
  {
    var all := wire + [f];
    if HasKind(wire, kind) {
      var i :| 0 <= i < |wire| && wire[i].kind == kind;
      assert all[i].kind == kind;
    }
    if f.kind == kind { assert all[|wire|].kind == kind; }
  }

  lemma PutPiece(wire: seq<Frame>, f: Frame, body: seq<byte>)
    ensures DataFramesOk(wire + [f], body) <==>
              DataFramesOk(wire, body) &&
              (f.kind == DATA ==>
                 && 0 < |f.payload| <= MAXIMUM_FRAME_BYTES && f.stream == 1
                 && (f.EndStream() <==> |DataPart(wire) + f.payload| == |body|))
  {
    hide DataPart;
    var all := wire + [f];
    PutSums(wire, f);
    assert all[|wire|] == f && all[..|all|] == all;
    assert forall i :: 0 <= i < |wire| ==> all[i] == wire[i] && all[..i + 1] == wire[..i + 1];
  }

  lemma PutOne(wire: seq<Frame>, f: Frame, body: seq<byte>)
    ensures DataPart(wire + [f]) == DataPart(wire) + (if f.kind == DATA then f.payload else [])
    ensures forall id: nat :: Granted(wire + [f], id) ==
              Granted(wire, id) + if f.kind == WINDOW_UPDATE && f.stream == id && |f.payload| == 4 then U31(f.payload)
                  else 0
    ensures forall kind :: HasKind(wire + [f], kind) <==> HasKind(wire, kind) || f.kind == kind
    ensures DataFramesOk(wire + [f], body) <==>
              DataFramesOk(wire, body) &&
              (f.kind == DATA ==>
                 && 0 < |f.payload| <= MAXIMUM_FRAME_BYTES && f.stream == 1
                 && (f.EndStream() <==> |DataPart(wire) + f.payload| == |body|))
  {
    hide DataPart, Granted, HasKind, DataFramesOk, U31;
    PutSums(wire, f);
    PutPiece(wire, f, body);
    forall kind ensures HasKind(wire + [f], kind) <==> HasKind(wire, kind) || f.kind == kind { PutKind(wire, f, kind); }
  }

  // ----- what the writer keeps

  /** The head is the uninterrupted beginning of everything written. */
  predicate HeadFirst(e: Exchange, s: State) {
    if s.writer.Heading? then s.writer.sent <= |e.Head()| && s.wire == e.Head()[..s.writer.sent] && s.position == 0
    else |e.Head()| <= |s.wire| && s.wire[..|e.Head()|] == e.Head()
  }

  /** The body so far, frame by frame. */
  predicate BodyWritten(e: Exchange, s: State) {
    s.position <= |e.body| && DataPart(s.wire) == e.body[..s.position] && DataFramesOk(s.wire, e.body)
  }

  /** When the stream is given up and when the connection is. */
  predicate Farewell(e: Exchange, s: State) {
    && (s.writer == Finishing ==> s.position == |e.body|)
    && (s.writer == Resetting ==> s.position < |e.body|)
    && (HasKind(s.wire, RST_STREAM) <==> (s.writer == Leaving || s.writer == Shut) && s.position < |e.body|)
    && (HasKind(s.wire, GOAWAY) <==> s.writer == Shut)
    && (s.writer == Shut ==> s.wire != [] && s.wire[|s.wire| - 1] == GOODBYE)
  }

  predicate WireOk(e: Exchange, s: State) {
    HeadFirst(e, s) && BodyWritten(e, s) && Farewell(e, s)
  }

  lemma HeadKinds(e: Exchange)
    ensures forall i :: 0 <= i < |e.Head()| ==> e.Head()[i].kind == HEADERS || e.Head()[i].kind == CONTINUATION
  {
  }

  lemma HeadPut(e: Exchange, s: State, f: Frame)
    requires !s.writer.Heading? && HeadFirst(e, s)
    ensures forall w: Writer :: !w.Heading? ==> HeadFirst(e, Put(s, f).(writer := w))
  {
    assert (s.wire + [f])[..|e.Head()|] == s.wire[..|e.Head()|];
  }

  /** A frame that is neither DATA nor a farewell keeps everything. */
  lemma PutKeeps(e: Exchange, s: State, f: Frame)
    requires WireOk(e, s) && (s.writer == Sending || s.writer == Finishing)
    requires f.kind != DATA && f.kind != RST_STREAM && f.kind != GOAWAY
    ensures WireOk(e, Put(s, f))
  {
    hide DataPart, DataFramesOk, HasKind;
    PutOne(s.wire, f, e.body);
    HeadPut(e, s, f);
    assert DataPart(s.wire) + [] == DataPart(s.wire);
  }

  lemma HeadWire(e: Exchange, s: State, next: State)
    requires WireOk(e, s) && WriterStep(e, s, WriteHead) == Some(next)
    ensures WireOk(e, next)
  {
    hide DataPart, DataFramesOk, HasKind;
    HeadKinds(e);
    if s.writer.sent < |e.Head()| {
      var f := e.Head()[s.writer.sent];
      PutOne(s.wire, f, e.body);
      assert e.Head()[..s.writer.sent + 1] == e.Head()[..s.writer.sent] + [f];
      assert DataPart(s.wire) + [] == DataPart(s.wire);
    } else {
      assert e.Head()[..|e.Head()|] == e.Head();
    }
  }

  lemma DataWire(e: Exchange, s: State, next: State)
    requires WireOk(e, s) && s.writer == Sending && Data(e, s) == Some(next)
    ensures WireOk(e, next)
  {
    hide DataPart, DataFramesOk, HasKind, Exchange.Head;
    var count := s.windows.Allowance(|e.body| - s.position);
    var f := DataFrame(e.body, s.position, count);
    PutOne(s.wire, f, e.body);
    HeadPut(e, s, f);
    assert e.body[..s.position + count] == e.body[..s.position] + f.payload;
    assert HeadFirst(e, next);
  }

  lemma HandleWire(e: Exchange, s: State, command: Outgoing, complete: bool, next: State)
    requires WireOk(e, s) && (s.writer == Sending || s.writer == Finishing)
    requires Handle(s, command, complete) == Some(next)
    ensures WireOk(e, next)
  {
    hide DataPart, DataFramesOk, HasKind, Exchange.Head, Flow.Windows.Observed;
    match command
    case Grant(bytes) =>
      var one := Put(s, Flow.Update(0, bytes));
      PutKeeps(e, s, Flow.Update(0, bytes));
      PutKeeps(e, one, Flow.Update(1, bytes));
    case Control(f) =>
      var noted := s.(handled := s.handled + [f]);
      if f.kind == SETTINGS { PutKeeps(e, Observed(noted, f).value, SETTINGS_ACK); }
      else if f.kind == PING { PutKeeps(e, noted, Pong(f)); }
  }

  lemma LastWire(e: Exchange, s: State, l: Label, next: State)
    requires WireOk(e, s) && (l == WriteReset || l == WriteGoaway) && WriterStep(e, s, l) == Some(next)
    ensures WireOk(e, next)
  {
    hide DataPart, DataFramesOk, HasKind, Exchange.Head;
    var f := if l == WriteReset then RESET else GOODBYE;
    PutOne(s.wire, f, e.body);
    HeadPut(e, s, f);
    assert DataPart(s.wire) + [] == DataPart(s.wire);
    assert (s.wire + [f])[|s.wire|] == f;
    assert HeadFirst(e, next);
  }

  /** The reader writes nothing. */
  lemma ReaderWire(e: Exchange, s: State, l: Label, next: State)
    requires ReaderStep(e, s, l) == Some(next)
    ensures next.wire == s.wire && next.writer == s.writer && next.position == s.position
    ensures next.windows == s.windows && next.actions == s.actions
  {
    hide Assembly.Accept, Assembly.Finish, Gate.Admit;
  }

  lemma WireKept(e: Exchange, s: State, l: Label, next: State)
    requires WireOk(e, s) && Step(e, s, l) == Some(next)
    ensures WireOk(e, next)
  {
    hide DataPart, DataFramesOk, HasKind, Exchange.Head, ReaderStep, Handle, Data;
    if WriterStep(e, s, l).None? {
      ReaderWire(e, s, l, next);
    } else if l == WriteHead {
      HeadWire(e, s, next);
    } else if l == WriteData {
      DataWire(e, s, next);
    } else if l == Take {
      var free := s.(channel := None);
      if s.channel.value != Finish && Handle(free, s.channel.value, s.writer == Finishing).Some? {
        HandleWire(e, free, s.channel.value, s.writer == Finishing, next);
      }
    } else if l == WriteReset || l == WriteGoaway {
      LastWire(e, s, l, next);
    }
  }

  /**
   * In every interleaving: the head frames come first and together, the DATA payloads are a prefix of the
   * body in non-empty pieces of at most 16384 octets, the end of the stream is on exactly the piece that
   * completes it, and the stream is reset, on a finished writer, exactly when the body was not all sent.
   */
  lemma {:induction false} RequestWritten(e: Exchange, labels: seq<Label>)
    requires Run(e, labels).Some?
    ensures WireOk(e, Run(e, labels).value)
  {
    hide WireOk, Step;
    if labels == [] {
      InitialWire(e);
    } else {
      var before := labels[..|labels| - 1];
      RequestWritten(e, before);
      WireKept(e, Run(e, before).value, labels[|labels| - 1], Run(e, labels).value);
    }
  }

  lemma InitialWire(e: Exchange)
    ensures WireOk(e, Initial(e))
  {
    assert e.Head()[..0] == [] && e.body[..0] == [];
  }

  /** Everything a writer ever writes, by place: its head first; its body, credit, acknowledgements and farewells. */
  predicate Own(e: Exchange, i: nat, f: Frame) {
    || (i < |e.Head()| && f == e.Head()[i]) || f.kind == 0
    || (f.kind == 8 && f.flags == 0 && f.stream <= 1)
    || f == Frame(4, 1, 0, []) || (f.kind == 6 && f.flags == 1 && f.stream == 0)
    || f == Frame(3, 0, 1, [0, 0, 0, 0]) || f == Frame(7, 0, 0, [0, 0, 0, 0, 0, 0, 0, 0])
  }

  predicate AllOwnIn(e: Exchange, wire: seq<Frame>) {
    forall i :: 0 <= i < |wire| ==> Own(e, i, wire[i])
  }

  lemma OwnPut(e: Exchange, wire: seq<Frame>, f: Frame)
    requires AllOwnIn(e, wire) && Own(e, |wire|, f)
    ensures AllOwnIn(e, wire + [f])
  {
    hide Own;
  }

  lemma OwnHandle(e: Exchange, s: State, command: Outgoing, complete: bool, next: State)
    requires AllOwnIn(e, s.wire) && Handle(s, command, complete) == Some(next)
    ensures AllOwnIn(e, next.wire)
  {
    hide Exchange.Head, Flow.Windows.Observed, Octets32, AllOwnIn;
    match command
    case Grant(bytes) =>
      OwnPut(e, s.wire, Flow.Update(0, bytes));
      OwnPut(e, s.wire + [Flow.Update(0, bytes)], Flow.Update(1, bytes));
    case Control(f) =>
      if f.kind == SETTINGS { OwnPut(e, s.wire, SETTINGS_ACK); }
      else if f.kind == PING { OwnPut(e, s.wire, Pong(f)); }
  }

  lemma OwnStep(e: Exchange, s: State, l: Label, next: State)
    requires Step(e, s, l) == Some(next) && AllOwnIn(e, s.wire) && HeadFirst(e, s)
    ensures AllOwnIn(e, next.wire)
  {
    hide Exchange.Head, Flow.Windows.Observed, Flow.Windows.Allowance, ReaderStep, Handle, AllOwnIn;
    if WriterStep(e, s, l).None? {
      ReaderWire(e, s, l, next);
    } else if l == Take {
      var free := s.(channel := None);
      if s.channel.value != Finish && Handle(free, s.channel.value, s.writer == Finishing).Some? {
        OwnHandle(e, free, s.channel.value, s.writer == Finishing, next);
      }
    } else if next.wire != s.wire {
      OwnPut(e, s.wire, next.wire[|s.wire|]);
    }
  }

  /**
   * The same in plain numbers, for every interleaving: each DATA frame is on stream 1, has 1 to 16384 octets,
   * and carries END_STREAM exactly when it completes the body; whatever is written otherwise is the writer's own.
   */
  lemma {:induction false} WireInNumbers(e: Exchange, labels: seq<Label>, i: nat)
    requires Run(e, labels).Some? && i < |Run(e, labels).value.wire|
    ensures var wire := Run(e, labels).value.wire;
            && Own(e, i, wire[i])
            && (wire[i].kind == 0 ==>
                  && 1 <= |wire[i].payload| <= 16384 && wire[i].stream == 1
                  && (wire[i].flags % 2 == 1 <==> |DataPart(wire[..i + 1])| == |e.body|))
  {
    hide Own;
    RequestWritten(e, labels);
    AllOwn(e, labels);
  }

  lemma {:induction false} AllOwn(e: Exchange, labels: seq<Label>)
    requires Run(e, labels).Some?
    ensures AllOwnIn(e, Run(e, labels).value.wire)
  {
    hide Own, Step;
    if labels != [] {
      var before := labels[..|labels| - 1];
      AllOwn(e, before);
      RequestWritten(e, before);
      OwnStep(e, Run(e, before).value, labels[|labels| - 1], Run(e, labels).value);
    }
  }

  // ----- what the windows allow

  /** Everything the windows were told, before and during the exchange. */
  function History(e: Exchange, s: State): seq<Flow.Action> { Observations(e.negotiated) + s.actions }

  predicate FlowOk(e: Exchange, s: State) {
    s.windows == Flow.Run(Flow.START, History(e, s)) && s.position == Flow.Book(History(e, s)).reserved
  }

  lemma {:induction false} NothingReserved(frames: seq<Frame>)
    ensures Flow.Book(Observations(frames)).reserved == 0
    decreases |frames|
  {
    if frames != [] {
      NothingReserved(frames[..|frames| - 1]);
      var all := Observations(frames);
      assert all[..|all| - 1] == Observations(frames[..|frames| - 1]);
    }
  }

  lemma OneMore(e: Exchange, s: State, next: State, a: Flow.Action)
    requires FlowOk(e, s) && next.actions == s.actions + [a] && next.windows == Flow.After(s.windows, a)
    requires next.position == s.position + if a.Reserve? then s.windows.Allowance(a.remaining) else 0
    ensures FlowOk(e, next)
  {
    hide Flow.Windows.Observed, Flow.Windows.Allowance;
    var all := History(e, next);
    assert all == History(e, s) + [a];
    assert all[..|all| - 1] == History(e, s);
  }

  lemma HandleFlow(e: Exchange, s: State, command: Outgoing, complete: bool, next: State)
    requires FlowOk(e, s) && Handle(s, command, complete) == Some(next)
    ensures FlowOk(e, next)
  {
    hide FlowOk;
    SameFlow(e, s, next);
    if command.Control? && s.windows.Observed(command.frame).Some? && next.actions != s.actions {
      OneMore(e, s, next, Flow.Observe(command.frame));
    }
  }

  lemma SameFlow(e: Exchange, s: State, next: State)
    ensures FlowOk(e, s) && next.windows == s.windows && next.actions == s.actions && next.position == s.position ==>
              FlowOk(e, next)
  {
  }

  lemma FlowKept(e: Exchange, s: State, l: Label, next: State)
    requires FlowOk(e, s) && Step(e, s, l) == Some(next)
    ensures FlowOk(e, next)
  {
    hide FlowOk, ReaderStep, Handle, Exchange.Head;
    SameFlow(e, s, next);
    if WriterStep(e, s, l).None? {
      ReaderWire(e, s, l, next);
    } else if l == WriteData {
      OneMore(e, s, next, Flow.Reserve(|e.body| - s.position));
    } else if l == Take {
      var free := s.(channel := None);
      SameFlow(e, s, free);
      if s.channel.value != Finish && Handle(free, s.channel.value, s.writer == Finishing).Some? {
        HandleFlow(e, free, s.channel.value, s.writer == Finishing, next);
      }
    }
  }

  lemma {:induction false} WindowsFollow(e: Exchange, labels: seq<Label>)
    requires Run(e, labels).Some?
    ensures FlowOk(e, Run(e, labels).value)
  {
    hide FlowOk, Step;
    if labels == [] {
      InitialFlow(e);
    } else {
      var before := labels[..|labels| - 1];
      WindowsFollow(e, before);
      FlowKept(e, Run(e, before).value, labels[|labels| - 1], Run(e, labels).value);
    }
  }

  lemma InitialFlow(e: Exchange)
    ensures FlowOk(e, Initial(e))
  {
    NothingReserved(e.negotiated);
    assert Observations(e.negotiated) + [] == Observations(e.negotiated);
  }

  /**
   * Cumulative DATA never exceeds what either window had granted when it was written: the connection's
   * total at any time, the stream's at every DATA frame.
   */
  lemma DataWithinWindows(e: Exchange, labels: seq<Label>)
    requires Run(e, labels).Some?
    ensures var s := Run(e, labels).value;
            var ledger := Flow.Book(History(e, s));
            && |DataPart(s.wire)| == s.position <= 65535 + ledger.connectionCredit
            && (labels != [] && labels[|labels| - 1] == WriteData ==>
                  s.position <= ledger.initial + ledger.streamCredit)
  {
    hide WireOk, FlowOk, WriterStep, ReaderStep;
    var s := Run(e, labels).value;
    RequestWritten(e, labels);
    WindowsFollow(e, labels);
    FlowMeans(e, s);
    if labels != [] && labels[|labels| - 1] == WriteData {
      var before := Run(e, labels[..|labels| - 1]).value;
      WindowsFollow(e, labels[..|labels| - 1]);
      FlowMeans(e, before);
      DataLeaves(e, before, s);
    }
  }

  lemma FlowMeans(e: Exchange, s: State)
    requires FlowOk(e, s)
    ensures var ledger := Flow.Book(History(e, s));
            && s.windows.Valid()
            && s.windows.connection == Flow.INITIAL_WINDOW + ledger.connectionCredit - s.position
            && s.windows.stream == ledger.initial + ledger.streamCredit - s.position
    ensures WireOk(e, s) ==> |DataPart(s.wire)| == s.position
  {
    Flow.Conserved(History(e, s));
  }

  lemma DataLeaves(e: Exchange, s: State, next: State)
    requires Step(e, s, WriteData) == Some(next) && s.windows.Valid()
    ensures next.windows.stream >= 0 && next.windows.connection >= 0
  {
    hide Exchange.Head;
  }
}
