/** What the reader of the driver keeps in every interleaving: credit, response, completion, progress. */
module Http2DriverReader {
  import opened Bytes
  import opened HuffmanTree
  import opened Http2Frames
  import opened Http2Driver
  import Flow = Http2Flow
  import Assembly = Http2Response
  import R = Http2FrameReader

  /** DATA payload accepted, padding included. */
  function DataReceived(frames: seq<Frame>): nat {
    if frames == [] then 0
    else
      var f := frames[|frames| - 1];
      DataReceived(frames[..|frames| - 1]) + if f.kind == 0 then |f.payload| else 0
  }

  /** The response goes on. */
  predicate Open(s: State) { s.reader == Reading || s.reader.Offering? || s.reader == Awaiting }

  /** Credit on its way to the wire. */
  function Owed(s: State): nat {
    if s.reader.Offering? && s.reader.command.Grant? then s.reader.command.bytes
    else if s.reader == Awaiting && s.channel.Some? && s.channel.value.Grant? then s.channel.value.bytes
    else 0
  }

  /** Who is waiting for whom. */
  predicate Handshake(s: State) {
    && (s.reader.Offering? ==>
          s.reader.command != Finish && (s.reader.command.Grant? ==> 0 < s.reader.command.bytes <= 65535))
    && (if s.reader == Awaiting then
          if s.confirmed then s.channel.None?
          else s.channel.Some? && s.channel.value.Grant? && 0 < s.channel.value.bytes <= 65535
        else !s.confirmed && (s.channel.Some? ==> !s.channel.value.Grant?))
    && (s.channel == Some(Finish) ==> s.reader == Draining || s.reader.Done?)
    && (s.reader == Draining || s.reader.Done? ==>
          if s.writer.Heading? || s.writer == Sending || s.writer == Finishing then s.channel == Some(Finish)
          else s.channel.None?)
    && (s.writer == Resetting || s.writer == Leaving || s.writer == Shut ==> s.reader == Draining || s.reader.Done?)
  }

  /** The wire gate and the assembler know the same about the stream. */
  predicate GateAgrees(s: State) {
    var g, r := s.gate, s.response;
    && !g.first && !g.trailersAllowed && (g.reset ==> r.ended)
    && (r.block.Some? ==> r.head.None?)
    && (Open(s) <==> !r.ended)
    && (g.continuation <==> r.block.Some?)
    && (g.head <==> r.block.Some? || r.head.Some?)
    && (g.ended <==> r.ended || (r.block.Some? && r.headerEnd))
    && (r.ended ==> r.block.None? && r.head.Some?)
  }

  predicate CreditOk(s: State) {
    Open(s) ==> forall id :: 0 <= id <= 1 ==> Granted(s.wire, id) + Owed(s) == DataReceived(s.received)
  }

  predicate Answered(e: Exchange, s: State) {
    && Assembly.AcceptAll(e.contract, s.received) == Some(s.response)
    && (s.reader.Done? ==> Assembly.Finish(e.contract, s.response) == Some(s.reader.result))
  }

  ghost predicate ReaderOk(e: Exchange, s: State) {
    s.failed || (Handshake(s) && GateAgrees(s) && CreditOk(s) && Answered(e, s))
  }

  // ----- the writer's steps

  lemma WriterHandshake(e: Exchange, s: State, l: Label, next: State)
    requires !s.failed && Handshake(s) && WriterStep(e, s, l) == Some(next) && !next.failed
    ensures Handshake(next)
    ensures next.reader == s.reader && next.gate == s.gate && next.response == s.response && next.received == s.received
  {
    hide Exchange.Head, Flow.Windows.Observed, Flow.Windows.Allowance, Flow.Update;
  }

  lemma NoCredit(wire: seq<Frame>, f: Frame, id: nat)
    requires f.kind != WINDOW_UPDATE
    ensures Granted(wire + [f], id) == Granted(wire, id)
  {
    PutOne(wire, f, []);
  }

  lemma CreditPut(wire: seq<Frame>, bytes: nat, id: nat)
    requires id <= 1 && 0 < bytes <= 65535
    ensures Granted(wire + [Flow.Update(0, bytes)] + [Flow.Update(1, bytes)], id) == Granted(wire, id) + bytes
  {
    hide Granted, DataPart, U31, Octets32;
    PutOne(wire, Flow.Update(0, bytes), []);
    PutOne(wire + [Flow.Update(0, bytes)], Flow.Update(1, bytes), []);
    Flow.UpdateRead(0, bytes, []);
    Flow.UpdateRead(1, bytes, []);
  }

  lemma HandleCredit(s: State, command: Outgoing, complete: bool, next: State, id: nat)
    requires Handle(s, command, complete) == Some(next) && id <= 1
    requires command.Grant? ==> 0 < command.bytes <= 65535
    ensures Granted(next.wire, id) == Granted(s.wire, id) + if command.Grant? then command.bytes else 0
  {
    hide Granted, Flow.Windows.Observed;
    match command
    case Grant(bytes) => CreditPut(s.wire, bytes, id);
    case Control(f) =>
      if f.kind == SETTINGS { NoCredit(s.wire, SETTINGS_ACK, id); }
      else if f.kind == PING { NoCredit(s.wire, Pong(f), id); }
  }

  lemma WriterCredit(e: Exchange, s: State, l: Label, next: State)
    requires !s.failed && Handshake(s) && CreditOk(s) && WriterStep(e, s, l) == Some(next) && !next.failed
    ensures CreditOk(next)
  {
    hide Granted, DataReceived, Handle;
    WriterReader(e, s, l, next);
    forall id | 0 <= id <= 1 && Open(s)
      ensures Granted(next.wire, id) + Owed(next) == DataReceived(next.received)
    {
      assert Granted(s.wire, id) + Owed(s) == DataReceived(s.received);
      if l == Take {
        var free := s.(channel := None);
        if s.channel.value != Finish { HandleCredit(free, s.channel.value, s.writer == Finishing, next, id); }
      } else {
        OtherCredit(e, s, l, next, id);
      }
    }
  }

  /** The writer leaves the reader's side alone, and takes at most the channel's message. */
  lemma WriterReader(e: Exchange, s: State, l: Label, next: State)
    requires WriterStep(e, s, l) == Some(next)
    ensures next.reader == s.reader && next.received == s.received
    ensures l != Take ==> next.channel == s.channel
    ensures l == Take ==> next.channel.None? && s.channel.Some?
  {
    hide Exchange.Head, Flow.Windows.Observed, Flow.Windows.Allowance, Flow.Update, Flow.Windows.Reserved, DataFrame;
  }

  lemma OtherCredit(e: Exchange, s: State, l: Label, next: State, id: nat)
    requires l != Take && WriterStep(e, s, l) == Some(next)
    ensures Granted(next.wire, id) == Granted(s.wire, id)
  {
    hide Granted, Flow.Windows.Allowance;
    if next.wire != s.wire {
      if l == WriteHead { HeadKinds(e); }
      NoCredit(s.wire, next.wire[|s.wire|], id);
    }
  }

  // ----- the reader's steps

  lemma OfferKeeps(e: Exchange, s: State, l: Label, next: State)
    requires !s.failed && (l == Offer || l == Confirm) && ReaderStep(e, s, l) == Some(next)
    requires Handshake(s) && GateAgrees(s) && CreditOk(s) && Answered(e, s)
    ensures Handshake(next) && GateAgrees(next) && CreditOk(next) && Answered(e, next)
  {
    hide Granted, DataReceived, Assembly.AcceptAll, Assembly.Finish;
  }

  /** A clean transport end before the response has ended cannot be seen while reading. */
  lemma NoEarlyEnd(s: State)
    requires GateAgrees(s) && Open(s)
    ensures !s.gate.Complete()
  {
  }

  lemma StopKeeps(e: Exchange, s: State, l: Label, next: State)
    requires !s.failed && (l == Stop || l == TransportEnd || l.Drain?) && ReaderStep(e, s, l) == Some(next)
    requires Handshake(s) && GateAgrees(s) && CreditOk(s) && Answered(e, s)
    ensures ReaderOk(e, next)
  {
    hide Granted, DataReceived, Assembly.AcceptAll, Assembly.Finish, Frame.Local;
    if l == TransportEnd { NoEarlyEnd(s); }
  }

  /** What the assembler does with a frame the gate let through, seen from the gate. */
  lemma AcceptAgrees(e: Exchange, s: State, f: Frame, g: Gate, r: Assembly.Response)
    requires GateAgrees(s) && Open(s) && s.gate.Admit(f) == Some(g) && ResponseKind(f.kind)
    requires Assembly.Accept(e.contract, s.response, R.Handed(f)) == Some(r)
    ensures !g.first && !g.trailersAllowed && !g.reset
    ensures (r.block.Some? ==> r.head.None?) && (r.ended ==> r.block.None? && r.head.Some?)
    ensures (g.continuation <==> r.block.Some?) && (g.head <==> r.block.Some? || r.head.Some?)
    ensures g.ended <==> r.ended || (r.block.Some? && r.headerEnd)
  {
    hide Frame.Local, Assembly.Installable, Assembly.Takable, Assembly.HeadOf;
  }

  lemma AcceptedKeeps(e: Exchange, s: State, f: Frame, g: Gate)
    requires !s.failed && s.reader == Reading && s.gate.Admit(f) == Some(g) && ResponseKind(f.kind)
    requires Handshake(s) && GateAgrees(s) && CreditOk(s) && Answered(e, s)
    ensures ReaderOk(e, Accepted(e, s.(gate := g), R.Handed(f)))
  {
    hide Granted, Gate.Admit, Assembly.Accept, Assembly.Finish, Assembly.AcceptAll;
    Admitted(s.gate, f);
    var h := R.Handed(f);
    match Assembly.Accept(e.contract, s.response, h)
    case None =>
    case Some(r) =>
      AcceptAgrees(e, s, f, g, r);
      CreditBound(e, s.response, h, r);
      ReceivedMore(e, s, h, r);
  }

  lemma Admitted(g: Gate, f: Frame)
    requires g.Admit(f).Some?
    ensures f.kind == HEADERS ==> f.Strippable()
  {
  }

  lemma ReceivedMore(e: Exchange, s: State, f: Frame, r: Assembly.Response)
    requires Answered(e, s) && Assembly.Accept(e.contract, s.response, f) == Some(r)
    ensures Assembly.AcceptAll(e.contract, s.received + [f]) == Some(r)
    ensures DataReceived(s.received + [f]) == DataReceived(s.received) + Assembly.Credit(f)
  {
    assert (s.received + [f])[..|s.received|] == s.received;
  }

  lemma CreditBound(e: Exchange, r: Assembly.Response, f: Frame, next: Assembly.Response)
    requires Assembly.Accept(e.contract, r, f) == Some(next)
    ensures Assembly.Credit(f) <= 65535
  {
    hide Assembly.Installable, Assembly.HeadOf;
  }

  lemma ReceiveKeeps(e: Exchange, s: State, f: Frame, next: State)
    requires !s.failed && ReaderStep(e, s, Receive(f)) == Some(next)
    requires Handshake(s) && GateAgrees(s) && CreditOk(s) && Answered(e, s)
    ensures ReaderOk(e, next)
  {
    hide Granted, DataReceived, Assembly.Accept, Assembly.Finish, Assembly.AcceptAll, Accepted;
    var g := s.gate.Admit(f).value;
    if ResponseKind(f.kind) {
      AcceptedKeeps(e, s, f, g);
    } else if f.kind != RST_STREAM {
      OtherAgrees(s, f, g);
    }
  }

  lemma OtherAgrees(s: State, f: Frame, g: Gate)
    requires GateAgrees(s) && s.gate.Admit(f) == Some(g) && !ResponseKind(f.kind) && f.kind != RST_STREAM
    ensures GateAgrees(s.(gate := g))
  {
    hide Frame.Local;
  }

  lemma ReaderKept(e: Exchange, s: State, l: Label, next: State)
    requires ReaderOk(e, s) && Step(e, s, l) == Some(next)
    ensures ReaderOk(e, next)
  {
    hide Handshake, GateAgrees, CreditOk, Answered;
    if !next.failed {
      if WriterStep(e, s, l).Some? {
        WriterHandshake(e, s, l, next);
        WriterCredit(e, s, l, next);
        SameAnswer(e, s, next);
      } else {
        match l {
          case Receive(f) => ReceiveKeeps(e, s, f, next);
          case Offer => OfferKeeps(e, s, l, next);
          case Confirm => OfferKeeps(e, s, l, next);
          case _ => StopKeeps(e, s, l, next);
        }
      }
    }
  }

  lemma SameAnswer(e: Exchange, s: State, next: State)
    requires GateAgrees(s) && Answered(e, s)
    requires next.reader == s.reader && next.gate == s.gate && next.response == s.response
               && next.received == s.received
    ensures GateAgrees(next) && Answered(e, next)
  {
  }

  lemma {:induction false} ReaderRuns(e: Exchange, labels: seq<Label>)
    requires Run(e, labels).Some?
    ensures ReaderOk(e, Run(e, labels).value)
  {
    hide ReaderOk, Step;
    if labels == [] {
      InitialReader(e);
    } else {
      var before := labels[..|labels| - 1];
      ReaderRuns(e, before);
      ReaderKept(e, Run(e, before).value, labels[|labels| - 1], Run(e, labels).value);
    }
  }

  lemma InitialReader(e: Exchange)
    ensures ReaderOk(e, Initial(e))
  {
  }

  // ----- what follows

  /**
   * Whenever the reader is about to read another frame, the credit written on the connection and on the
   * stream each equals all DATA payload accepted so far, padding included.
   */
  lemma CreditAgreement(e: Exchange, labels: seq<Label>)
    requires Run(e, labels).Some? && !Run(e, labels).value.failed && Run(e, labels).value.reader == Reading
    ensures var s := Run(e, labels).value;
            Granted(s.wire, 0) == Granted(s.wire, 1) == DataReceived(s.received)
  {
    hide Handshake, GateAgrees, Answered, Run;
    ReaderRuns(e, labels);
    var s := Run(e, labels).value;
    assert Granted(s.wire, 0) + Owed(s) == DataReceived(s.received);
    assert Granted(s.wire, 1) + Owed(s) == DataReceived(s.received);
  }

  /** A finished reader answers with exactly the complete response its frames were. */
  lemma AnswerComplete(e: Exchange, book: Codebook, labels: seq<Label>)
    requires Assembly.Installed(e.contract, book)
    requires Run(e, labels).Some? && !Run(e, labels).value.failed && Run(e, labels).value.reader.Done?
    ensures var s := Run(e, labels).value;
            var (status, headers, body) := s.reader.result;
            exists n: nat :: Assembly.Complete(e.contract, s.received, n, (status, headers), body)
  {
    hide Handshake, GateAgrees, CreditOk, Run, Assembly.Complete, Assembly.AcceptAll, Assembly.Finish;
    ReaderRuns(e, labels);
    var s := Run(e, labels).value;
    var (status, headers, body) := s.reader.result;
    Assembly.CompletedIff(e.contract, book, s.received, (status, headers), body);
  }

  predicate LocalLabel(l: Label) {
    l in {WriteHead, StartControls, Take, WriteReset, WriteGoaway, Offer, Confirm, Stop}
  }

  /**
   * The two sides never wait for each other: unless both are finished, or the reader is waiting for the
   * network, one of them can go on by itself.
   */
  lemma NoDeadlock(e: Exchange, labels: seq<Label>)
    requires Run(e, labels).Some? && !Run(e, labels).value.failed
    ensures var s := Run(e, labels).value;
            s.reader == Reading || (s.reader.Done? && s.writer == Shut) ||
            exists l :: LocalLabel(l) && Step(e, s, l).Some?
  {
    hide CreditOk, GateAgrees, Answered, Run, Exchange.Head;
    ReaderRuns(e, labels);
    var s := Run(e, labels).value;
    if s.reader != Reading && !(s.reader.Done? && s.writer == Shut) {
      var l := Way(e, s);
    }
  }

  lemma Way(e: Exchange, s: State) returns (l: Label)
    requires !s.failed && Handshake(s) && s.reader != Reading && !(s.reader.Done? && s.writer == Shut)
    ensures LocalLabel(l) && Step(e, s, l).Some?
  {
    hide Exchange.Head, Flow.Windows.Observed, Handle, Assembly.Finish;
    l := if s.reader == Draining then Stop
         else if s.reader == Awaiting && s.confirmed then Confirm
         else if s.channel.None? && (s.reader.Offering? || s.reader == Closing) then Offer
         else if s.writer.Heading? then WriteHead
         else if s.writer == Sending && s.position >= |e.body| then StartControls
         else if s.writer == Resetting then WriteReset
         else if s.writer == Leaving then WriteGoaway
         else Take;
  }

  /** Frames that may arrive while the connection is still being negotiated. */
  predicate Preliminary(f: Frame) {
    f.kind in {PRIORITY, SETTINGS, PING, WINDOW_UPDATE} || f.kind > CONTINUATION
  }

  /** Behind any negotiation the frame gate stands where the exchange starts it. */
  lemma {:induction false} NegotiatedGate(e: Exchange, frames: seq<Frame>)
    requires AdmitAll(Fresh(e.headMaximum, false), frames).Some?
    requires forall i :: 0 <= i < |frames| ==> Preliminary(frames[i])
    ensures AdmitAll(Fresh(e.headMaximum, false), frames) ==
            Some(if frames == [] then Fresh(e.headMaximum, false) else e.Gate())
    decreases |frames|
  {
    hide Frame.Local;
    if frames != [] {
      NegotiatedGate(e, frames[..|frames| - 1]);
    }
  }
}
