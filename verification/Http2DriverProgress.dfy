/** What ends an exchange early, that nothing else does, and that every exchange can be brought to its end. */
module Http2DriverProgress {
  import opened Bytes
  import opened Http2Frames
  import opened Http2Driver
  import Flow = Http2Flow
  import Assembly = Http2Response
  import Reader = Http2DriverReader
  import Controls = Http2DriverControls
  import R = Http2FrameReader

  // ----- what ends an exchange early

  /** A control frame the send windows hear of: settings, and updates but those of a finished request's stream. */
  predicate Heard(s: State, f: Frame) {
    f.kind == 4 || (f.kind == 8 && !(s.writer == Finishing && f.stream == 1))
  }

  /** The response frames so far and this one are not the beginning of a response. */
  predicate Unacceptable(e: Exchange, s: State, f: Frame) {
    (f.kind == 1 ==> f.Strippable()) && Assembly.AcceptAll(e.contract, s.received + [R.Handed(f)]).None?
  }

  predicate Fatal(e: Exchange, s: State, l: Label) {
    match l
    case Fail => true
    case TransportEnd => true
    case Receive(f) =>
      if f.kind in {0, 1, 9} then Unacceptable(e, s, f)
      else f.kind == 3 || (f.kind == 4 && f.flags % 2 == 1) || (f.kind == 7 && !PoliteGoaway(f))
    case Take =>
      && s.channel.Some? && s.channel.value.Control?
      && Heard(s, s.channel.value.frame) && s.windows.Observed(s.channel.value.frame).None?
    case Stop =>
      var head := s.response.head;
      head.Some? && !e.contract.collected(head.value.0, head.value.1, s.response.body)
    case _ => false
  }

  lemma {:induction false} ControlKinds(labels: seq<Label>, f: Frame)
    requires f in Controls.Controls(labels)
    ensures f.kind == 4 || f.kind == 8 || f.kind == 6
  {
    if labels != [] && f in Controls.Controls(labels[..|labels| - 1]) { ControlKinds(labels[..|labels| - 1], f); }
  }

  /** Only control frames travel as such. */
  lemma ChannelKinds(e: Exchange, labels: seq<Label>)
    requires Run(e, labels).Some? && !Run(e, labels).value.failed
    ensures var channel := Run(e, labels).value.channel;
            channel.Some? && channel.value.Control? ==> channel.value.frame.kind in {4, 6, 8}
  {
    hide Run, Controls.Answers, Controls.Due, Controls.Controls, Controls.Responses;
    Controls.ControlsAnswered(e, labels);
    Controls.NothingDropped(e, labels);
    var s := Run(e, labels).value;
    if s.channel.Some? && s.channel.value.Control? {
      assert s.controls[|s.handled|] == s.channel.value.frame;
      ControlKinds(labels, s.channel.value.frame);
    }
  }

  lemma TakeFails(e: Exchange, s: State, next: State)
    requires !s.failed && Step(e, s, Take) == Some(next) && Reader.Handshake(s)
    requires s.channel.Some? && s.channel.value.Control? ==> s.channel.value.frame.kind in {4, 6, 8}
    ensures next.failed <==> Fatal(e, s, Take)
  {
    hide Flow.Windows.Observed, Flow.Update;
  }

  lemma ReceiveFails(e: Exchange, s: State, f: Frame, next: State)
    requires !s.failed && Step(e, s, Receive(f)) == Some(next) && Reader.Answered(e, s)
    ensures next.failed <==> Fatal(e, s, Receive(f))
  {
    hide Assembly.Accept, Assembly.Finish, SettingsLawful;
    if f.kind in {0, 1, 9} {
      var h := R.Handed(f);
      assert (s.received + [h])[..|s.received|] == s.received;
    } else {
      Controls.ReceiveFailsIff(e, s, f, next);
    }
  }

  lemma ReaderFails(e: Exchange, s: State, l: Label, next: State)
    requires !s.failed && Step(e, s, l) == Some(next) && !l.Receive? && l != Take
    requires Reader.Handshake(s) && Reader.GateAgrees(s)
    ensures next.failed <==> Fatal(e, s, l)
  {
    hide Frame.Local, Exchange.Head, Flow.Windows.Observed, Flow.Windows.Allowance;
    if l == TransportEnd { Reader.NoEarlyEnd(s); }
  }

  /**
   * In every reachable state a step ends the exchange early exactly if it is: the transport's own failure or
   * early end; a frame no response continues with; a reset, an ACK of settings never sent, a GOAWAY that leaves
   * our stream behind or names an error; a control frame the send windows cannot take; a collected response the
   * policy refuses.  Nothing behind the end of the response does, and the writer never finds its reader gone.
   */
  lemma FailsIff(e: Exchange, labels: seq<Label>, l: Label, next: State)
    requires Run(e, labels).Some? && Step(e, Run(e, labels).value, l) == Some(next)
    ensures next.failed <==> Fatal(e, Run(e, labels).value, l)
  {
    hide Run, Fatal, ReaderStep, WriterStep, Reader.Handshake, Reader.GateAgrees, Reader.Answered, Reader.CreditOk;
    var s := Run(e, labels).value;
    Reader.ReaderRuns(e, labels);
    if l.Receive? {
      ReceiveFails(e, s, l.frame, next);
    } else if l == Take {
      ChannelKinds(e, labels);
      TakeFails(e, s, next);
    } else {
      ReaderFails(e, s, l, next);
    }
  }

  // ----- going on

  function Steps(e: Exchange, s: State, more: seq<Label>): Option<State>
    decreases |more|
  {
    if more == [] then Some(s)
    else match Step(e, s, more[0]) case None => None case Some(next) => Steps(e, next, more[1..])
  }

  lemma {:induction false} RunOn(e: Exchange, labels: seq<Label>, more: seq<Label>)
    requires Run(e, labels).Some?
    ensures Run(e, labels + more) == Steps(e, Run(e, labels).value, more)
    decreases |more|
  {
    hide Step;
    if more == [] {
      assert labels + more == labels;
    } else {
      var longer := labels + [more[0]];
      assert longer[..|longer| - 1] == labels && longer[|longer| - 1] == more[0];
      assert longer + more[1..] == labels + more;
      match Run(e, longer) {
        case None => Stuck(e, longer, more[1..]);
        case Some(_) => RunOn(e, longer, more[1..]);
      }
    }
  }

  lemma {:induction false} Stuck(e: Exchange, labels: seq<Label>, more: seq<Label>)
    requires Run(e, labels).None?
    ensures Run(e, labels + more).None?
    decreases |more|
  {
    hide Step;
    var all := labels + more;
    if more == [] {
      assert all == labels;
    } else {
      var fewer := more[..|more| - 1];
      assert all[..|all| - 1] == labels + fewer;
      Stuck(e, labels, fewer);
    }
  }

  lemma {:induction false} StepsJoin(e: Exchange, s: State, a: seq<Label>, b: seq<Label>)
    requires Steps(e, s, a).Some?
    ensures Steps(e, s, a + b) == Steps(e, Steps(e, s, a).value, b)
    decreases |a|
  {
    hide Step;
    if a == [] {
      assert a + b == b;
    } else {
      assert (a + b)[0] == a[0] && (a + b)[1..] == a[1..] + b;
      StepsJoin(e, Step(e, s, a[0]).value, a[1..], b);
    }
  }

  lemma NoStep(e: Exchange, s: State)
    ensures Steps(e, s, []) == Some(s)
  {
  }

  lemma OneStep(e: Exchange, s: State, l: Label)
    ensures Steps(e, s, [l]) == Step(e, s, l)
  {
    hide Step;
    match Step(e, s, l)
    case None =>
    case Some(next) => assert Steps(e, next, [l][1..]) == Some(next);
  }

  // ----- the request body

  /** The next piece of the body can be written exactly while there is one and both windows are open. */
  lemma DataFlows(e: Exchange, s: State)
    requires !s.failed
    ensures Step(e, s, WriteData).Some? <==>
              s.writer == Sending && s.position < |e.body| && s.windows.connection > 0 && s.windows.stream > 0
    ensures Step(e, s, WriteData).Some? ==>
              var next, count := Step(e, s, WriteData).value, s.windows.Allowance(|e.body| - s.position);
              && count > 0 && next.position == s.position + count
              && next.windows.connection == s.windows.connection - count
              && next.windows.stream == s.windows.stream - count
              && next == s.(position := next.position, windows := next.windows, wire := next.wire,
                            actions := next.actions)
  {
  }

  /** Windows that hold what is left of the body are enough to send all of it. */
  lemma {:induction false} BodyCanFinish(e: Exchange, s: State) returns (more: seq<Label>)
    requires !s.failed && s.writer == Sending && s.position <= |e.body|
    requires s.windows.connection >= |e.body| - s.position && s.windows.stream >= |e.body| - s.position
    ensures Steps(e, s, more).Some?
    ensures var next := Steps(e, s, more).value;
            && next.position == |e.body|
            && next == s.(position := next.position, windows := next.windows, wire := next.wire,
                          actions := next.actions)
    decreases |e.body| - s.position
  {
    hide Step;
    more := [];
    if s.position < |e.body| {
      DataFlows(e, s);
      Flow.AllowanceIsMost(s.windows, |e.body| - s.position, 1);
      var next := Step(e, s, WriteData).value;
      var rest := BodyCanFinish(e, next);
      more := [WriteData] + rest;
      assert more[1..] == rest;
    }
  }

  // ----- the whole exchange

  /** The writer takes commands. */
  predicate Ready(e: Exchange, s: State) {
    s.writer == Finishing || (s.writer == Sending && s.position < |e.body|)
  }

  /** Nothing is on its way between the two sides. */
  predicate Quiet(s: State) { !s.failed && s.reader == Reading && s.channel.None? && !s.confirmed }

  /** Whatever it is doing, the writer comes to take commands, by itself. */
  lemma {:induction false} GetReady(e: Exchange, s: State) returns (more: seq<Label>)
    requires !s.failed && (s.writer.Heading? ==> s.writer.sent <= |e.Head()|)
    requires s.writer.Heading? || s.writer == Sending || s.writer == Finishing
    ensures Steps(e, s, more).Some? && Ready(e, Steps(e, s, more).value)
    ensures Steps(e, s, more).value ==
            s.(writer := Steps(e, s, more).value.writer, wire := Steps(e, s, more).value.wire)
    decreases if s.writer.Heading? then |e.Head()| - s.writer.sent + 1 else 0
  {
    hide Exchange.Head;
    more := [];
    if s.writer.Heading? {
      var next := Step(e, s, WriteHead).value;
      var rest := GetReady(e, next);
      more := [WriteHead] + rest;
      assert more[1..] == rest;
    } else if !Ready(e, s) {
      more := [StartControls];
      OneStep(e, s, StartControls);
    }
  }

  /** One more response frame, accepted and paid for. */
  lemma TakeOne(e: Exchange, s: State, f: Frame, g: Gate, r: Assembly.Response) returns (more: seq<Label>)
    requires Quiet(s) && Ready(e, s) && ResponseKind(f.kind) && s.gate.Admit(f) == Some(g)
    requires f.kind == HEADERS ==> f.Strippable()
    requires Assembly.Accept(e.contract, s.response, R.Handed(f)) == Some(r) && !r.ended
    ensures Steps(e, s, more).Some?
    ensures var next := Steps(e, s, more).value;
            && Quiet(next) && Ready(e, next) && next.gate == g && next.response == r
            && next.received == s.received + [R.Handed(f)]
  {
    hide Gate.Admit, Assembly.Accept, Assembly.Finish;
    var h := R.Handed(f);
    var one := Step(e, s, Receive(f)).value;
    OneStep(e, s, Receive(f));
    more := [Receive(f)];
    if Assembly.Credit(h) > 0 {
      Reader.CreditBound(e, s.response, h, r);
      Granting(e, one, Assembly.Credit(h));
      StepsJoin(e, s, more, [Offer, Take, Confirm]);
      more := more + [Offer, Take, Confirm];
    }
  }

  /** Credit is offered, written and confirmed. */
  lemma Granting(e: Exchange, s: State, bytes: nat)
    requires !s.failed && s.reader == Offering(Grant(bytes)) && bytes <= 65535
    requires s.channel.None? && !s.confirmed && Ready(e, s)
    ensures Steps(e, s, [Offer, Take, Confirm]).Some?
    ensures var next := Steps(e, s, [Offer, Take, Confirm]).value;
            next == s.(reader := Reading, wire := next.wire)
  {
    hide Gate.Admit, Assembly.Accept, Assembly.Finish, Flow.Update;
    var a := Step(e, s, Offer).value;
    var b := Step(e, a, Take).value;
    var c := Step(e, b, Confirm).value;
    assert [Offer, Take, Confirm][1..] == [Take, Confirm] && [Take, Confirm][1..] == [Confirm];
    OneStep(e, b, Confirm);
  }

  /** The last frame: both sides finish. */
  lemma TakeLast(e: Exchange, s: State, f: Frame, g: Gate, r: Assembly.Response) returns (more: seq<Label>)
    requires Quiet(s) && Ready(e, s) && ResponseKind(f.kind) && s.gate.Admit(f) == Some(g)
    requires f.kind == HEADERS ==> f.Strippable()
    requires Assembly.Accept(e.contract, s.response, R.Handed(f)) == Some(r) && r.ended
    requires Assembly.Finish(e.contract, r).Some?
    ensures Steps(e, s, more).Some?
    ensures var next := Steps(e, s, more).value;
            && !next.failed && next.writer == Shut && next.reader == Done(Assembly.Finish(e.contract, r).value)
            && next.received == s.received + [R.Handed(f)] && next.position == s.position
  {
    hide Gate.Admit, Assembly.Accept, Assembly.Finish;
    var a := Step(e, s, Receive(f)).value;
    OneStep(e, s, Receive(f));
    CloseDown(e, a);
    StepsJoin(e, s, [Receive(f)], [Offer, Take, Stop]);
    more := [Receive(f)] + [Offer, Take, Stop];
    var b := Steps(e, s, more).value;
    var last := if b.writer == Resetting then [WriteReset, WriteGoaway] else [WriteGoaway];
    Parting(e, b);
    StepsJoin(e, s, more, last);
    more := more + last;
  }

  lemma CloseDown(e: Exchange, s: State)
    requires !s.failed && s.reader == Closing && s.channel.None? && Ready(e, s)
    requires Assembly.Finish(e.contract, s.response).Some?
    ensures Steps(e, s, [Offer, Take, Stop]).Some?
    ensures Steps(e, s, [Offer, Take, Stop]).value ==
            s.(reader := Done(Assembly.Finish(e.contract, s.response).value),
               writer := if s.position < |e.body| then Resetting else Leaving)
  {
    hide Gate.Admit, Assembly.Accept, Assembly.Finish;
    var a := Step(e, s, Offer).value;
    var b := Step(e, a, Take).value;
    assert [Offer, Take, Stop][1..] == [Take, Stop] && [Take, Stop][1..] == [Stop];
    OneStep(e, b, Stop);
  }

  lemma Parting(e: Exchange, s: State)
    requires !s.failed && (s.writer == Resetting || s.writer == Leaving)
    ensures var last := if s.writer == Resetting then [WriteReset, WriteGoaway] else [WriteGoaway];
            && Steps(e, s, last).Some?
            && Steps(e, s, last).value == s.(writer := Shut, wire := Steps(e, s, last).value.wire)
  {
    if s.writer == Resetting {
      var a := Step(e, s, WriteReset).value;
      assert [WriteReset, WriteGoaway][1..] == [WriteGoaway];
      OneStep(e, a, WriteGoaway);
    } else {
      OneStep(e, s, WriteGoaway);
    }
  }

  /** Response frames that may still come, as the assembler gets them. */
  predicate Strippable(frames: seq<Frame>) {
    forall i :: 0 <= i < |frames| ==>
      ResponseKind(frames[i].kind) && (frames[i].kind == HEADERS ==> frames[i].Strippable())
  }

  function Handed(frames: seq<Frame>): seq<Frame>
    requires Strippable(frames)
  {
    seq(|frames|, i requires 0 <= i < |frames| => R.Handed(frames[i]))
  }

  /** The last of them, behind the others, which have not ended the response. */
  lemma LastOne(e: Exchange, g: Gate, received: seq<Frame>, frames: seq<Frame>)
    requires frames != [] && Strippable(frames) && AdmitAll(g, frames).Some?
    requires Assembly.AcceptAll(e.contract, received + Handed(frames)).Some?
    ensures var before, f := frames[..|frames| - 1], frames[|frames| - 1];
            && Strippable(before) && ResponseKind(f.kind) && (f.kind == HEADERS ==> f.Strippable())
            && received + Handed(before) + [R.Handed(f)] == received + Handed(frames)
            && AdmitAll(g, before).Some? && AdmitAll(g, before).value.Admit(f) == AdmitAll(g, frames)
            && var r := Assembly.AcceptAll(e.contract, received + Handed(before));
               && r.Some? && !r.value.ended
               && Assembly.Accept(e.contract, r.value, R.Handed(f)) ==
                    Assembly.AcceptAll(e.contract, received + Handed(frames))
  {
    hide Gate.Admit, Assembly.AcceptHead, Assembly.AcceptData;
    var before, f := frames[..|frames| - 1], frames[|frames| - 1];
    var all := received + Handed(frames);
    assert all[..|all| - 1] == received + Handed(before) && all[|all| - 1] == R.Handed(f);
  }

  /** All but the last of them, one by one. */
  lemma {:induction false} TakeMany(e: Exchange, s: State, frames: seq<Frame>) returns (more: seq<Label>)
    requires Quiet(s) && Ready(e, s) && Strippable(frames) && Reader.Answered(e, s)
    requires AdmitAll(s.gate, frames).Some?
    requires Assembly.AcceptAll(e.contract, s.received + Handed(frames)).Some?
    requires !Assembly.AcceptAll(e.contract, s.received + Handed(frames)).value.ended
    ensures Steps(e, s, more).Some?
    ensures var next := Steps(e, s, more).value;
            && Quiet(next) && Ready(e, next) && next.received == s.received + Handed(frames)
            && Some(next.gate) == AdmitAll(s.gate, frames)
            && Some(next.response) == Assembly.AcceptAll(e.contract, next.received)
    decreases |frames|
  {
    hide Gate.Admit, Assembly.Accept, Assembly.AcceptAll, Assembly.Finish, Step, Steps, Strippable, Ready;
    if frames == [] {
      more := [];
      NoStep(e, s);
      assert s.received + Handed(frames) == s.received;
    } else {
      hide AdmitAll, Handed;
      var before, f := frames[..|frames| - 1], frames[|frames| - 1];
      LastOne(e, s.gate, s.received, frames);
      more := TakeMany(e, s, before);
      var mid := Steps(e, s, more).value;
      var r := Assembly.AcceptAll(e.contract, s.received + Handed(frames)).value;
      var last := TakeOne(e, mid, f, AdmitAll(s.gate, frames).value, r);
      StepsJoin(e, s, more, last);
      more := more + last;
    }
  }

  /**
   * Every exchange can be brought to its end: from any reachable state in which nothing is on its way between
   * the two sides, whatever the writer is doing and however little the windows allow it, if the frames still to
   * come complete the response, both sides can finish and the answer is that response.
   */
  lemma CanFinish(e: Exchange, labels: seq<Label>, frames: seq<Frame>) returns (more: seq<Label>)
    requires Run(e, labels).Some? && Quiet(Run(e, labels).value) && frames != [] && Strippable(frames)
    requires AdmitAll(Run(e, labels).value.gate, frames).Some?
    requires var all := Run(e, labels).value.received + Handed(frames);
             && Assembly.AcceptAll(e.contract, all).Some?
             && Assembly.Finish(e.contract, Assembly.AcceptAll(e.contract, all).value).Some?
    ensures Run(e, labels + more).Some?
    ensures var all := Run(e, labels).value.received + Handed(frames);
            var next := Run(e, labels + more).value;
            && !next.failed && next.writer == Shut && next.received == all
            && next.reader == Done(Assembly.Finish(e.contract, Assembly.AcceptAll(e.contract, all).value).value)
  {
    hide Gate.Admit, Assembly.Accept, Assembly.Finish, Step, Steps, Assembly.AcceptAll, AdmitAll;
    var s := Run(e, labels).value;
    Reader.ReaderRuns(e, labels);
    RequestWritten(e, labels);
    more := GetReady(e, s);
    var ready := Steps(e, s, more).value;
    var rest := TakeAll(e, ready, frames);
    StepsJoin(e, s, more, rest);
    more := more + rest;
    RunOn(e, labels, more);
  }

  lemma TakeAll(e: Exchange, s: State, frames: seq<Frame>) returns (more: seq<Label>)
    requires Quiet(s) && Ready(e, s) && Strippable(frames) && Reader.Answered(e, s) && frames != []
    requires AdmitAll(s.gate, frames).Some?
    requires Assembly.AcceptAll(e.contract, s.received + Handed(frames)).Some?
    requires Assembly.Finish(e.contract, Assembly.AcceptAll(e.contract, s.received + Handed(frames)).value).Some?
    ensures Steps(e, s, more).Some?
    ensures var next := Steps(e, s, more).value;
            var r := Assembly.AcceptAll(e.contract, s.received + Handed(frames)).value;
            && !next.failed && next.writer == Shut && next.received == s.received + Handed(frames)
            && next.reader == Done(Assembly.Finish(e.contract, r).value)
  {
    hide Gate.Admit, Assembly.Accept, Assembly.AcceptAll, Assembly.Finish, AdmitAll, Step, Steps, Handed, Strippable;
    var before, f := frames[..|frames| - 1], frames[|frames| - 1];
    LastOne(e, s.gate, s.received, frames);
    more := TakeMany(e, s, before);
    var mid := Steps(e, s, more).value;
    var r := Assembly.AcceptAll(e.contract, s.received + Handed(frames)).value;
    FinishedEnds(e, r);
    var last := TakeLast(e, mid, f, AdmitAll(s.gate, frames).value, r);
    StepsJoin(e, s, more, last);
    more := more + last;
  }

  lemma FinishedEnds(e: Exchange, r: Assembly.Response)
    requires Assembly.Finish(e.contract, r).Some?
    ensures r.ended
  {
  }
}
