/** Control frames through the driver: none lost, none reordered, each acknowledged as it must be. */
module Http2DriverControls {
  import opened Bytes
  import opened Http2Frames
  import opened Http2Driver
  import Flow = Http2Flow
  import Assembly = Http2Response

  /** What has been written in answer to control frames. */
  function Answers(wire: seq<Frame>): seq<Frame> {
    if wire == [] then []
    else
      var f := wire[|wire| - 1];
      Answers(wire[..|wire| - 1]) + (if f.kind == 4 || f.kind == 6 then [f] else [])
  }

  /** What these control frames call for: settings and pings are acknowledged, a ping with its own octets. */
  function Due(controls: seq<Frame>): seq<Frame> {
    if controls == [] then []
    else
      var f := controls[|controls| - 1];
      Due(controls[..|controls| - 1]) +
      (if f.kind == 4 then [Frame(4, 1, 0, [])] else if f.kind == 6 then [Frame(6, 1, 0, f.payload)] else [])
  }

  function Carried(command: Option<Outgoing>): seq<Frame> {
    if command.Some? && command.value.Control? then [command.value.frame] else []
  }

  function Offered(r: Reader): seq<Frame> {
    if r.Offering? && r.command.Control? then [r.command.frame] else []
  }

  predicate ControlsOk(s: State) {
    s.failed || (s.controls == s.handled + Carried(s.channel) + Offered(s.reader) && Answers(s.wire) == Due(s.handled))
  }

  lemma AnswerMore(wire: seq<Frame>, f: Frame)
    ensures Answers(wire + [f]) == Answers(wire) + (if f.kind == SETTINGS || f.kind == PING then [f] else [])
  {
    assert (wire + [f])[..|wire|] == wire;
  }

  lemma DueMore(controls: seq<Frame>, f: Frame)
    ensures Due(controls + [f]) ==
            Due(controls) + (if f.kind == SETTINGS then [SETTINGS_ACK] else if f.kind == PING then [Pong(f)] else [])
  {
    assert (controls + [f])[..|controls|] == controls;
  }

  lemma HandleAnswers(s: State, command: Outgoing, complete: bool, next: State)
    requires Handle(s, command, complete) == Some(next) && Answers(s.wire) == Due(s.handled)
    ensures Answers(next.wire) == Due(next.handled)
    ensures next.handled == s.handled + Carried(Some(command))
    ensures next.controls == s.controls && next.reader == s.reader && next.channel == s.channel
              && next.failed == s.failed
  {
    hide Answers, Due, Flow.Windows.Observed;
    match command
    case Grant(bytes) =>
      AnswerMore(s.wire, Flow.Update(0, bytes));
      AnswerMore(s.wire + [Flow.Update(0, bytes)], Flow.Update(1, bytes));
    case Control(f) =>
      DueMore(s.handled, f);
      if f.kind == SETTINGS { AnswerMore(s.wire, SETTINGS_ACK); }
      else if f.kind == PING { AnswerMore(s.wire, Pong(f)); }
  }

  lemma WriterControls(e: Exchange, s: State, l: Label, next: State)
    requires !s.failed && ControlsOk(s) && WriterStep(e, s, l) == Some(next)
    ensures ControlsOk(next)
  {
    hide Answers, Due, Handle;
    if l == Take {
      var free := s.(channel := None);
      if s.channel.value != Finish && Handle(free, s.channel.value, s.writer == Finishing).Some? {
        HandleAnswers(free, s.channel.value, s.writer == Finishing, next);
        assert s.handled + Carried(s.channel) + Offered(s.reader) == next.handled + [] + Offered(next.reader);
      }
    } else {
      OtherAnswers(e, s, l, next);
    }
  }

  lemma OtherAnswers(e: Exchange, s: State, l: Label, next: State)
    requires l != Take && WriterStep(e, s, l) == Some(next)
    ensures Answers(next.wire) == Answers(s.wire)
    ensures next.handled == s.handled && next.controls == s.controls && next.channel == s.channel
              && next.reader == s.reader
  {
    hide Answers, Flow.Windows.Allowance;
    if next.wire != s.wire {
      if l == WriteHead { HeadKinds(e); }
      AnswerMore(s.wire, next.wire[|s.wire|]);
    }
  }

  lemma ReaderControls(e: Exchange, s: State, l: Label, next: State)
    requires !s.failed && ControlsOk(s) && ReaderStep(e, s, l) == Some(next)
    ensures ControlsOk(next)
  {
    hide Answers, Due, Assembly.Accept, Assembly.Finish, Gate.Admit;
    ReaderWire(e, s, l, next);
  }

  /**
   * In every interleaving the control frames passed on have been dealt with in order, up to the one in the
   * channel and the one the reader still holds, and the acknowledgements written are exactly those due.
   */
  lemma {:induction false} ControlsAnswered(e: Exchange, labels: seq<Label>)
    requires Run(e, labels).Some?
    ensures ControlsOk(Run(e, labels).value)
  {
    hide ControlsOk, WriterStep, ReaderStep;
    if labels == [] {
      InitialControls(e);
    } else {
      var before, l := labels[..|labels| - 1], labels[|labels| - 1];
      ControlsAnswered(e, before);
      var s := Run(e, before).value;
      if WriterStep(e, s, l).Some? {
        WriterControls(e, s, l, Run(e, labels).value);
      } else {
        ReaderControls(e, s, l, Run(e, labels).value);
      }
    }
  }

  lemma InitialControls(e: Exchange)
    ensures ControlsOk(Initial(e))
  {
  }

  // ----- from the labels alone

  /** The control frames among what arrived while the reader was reading: 4, 8, and 6 without its ACK flag. */
  function Controls(labels: seq<Label>): seq<Frame> {
    if labels == [] then []
    else
      var l := labels[|labels| - 1];
      Controls(labels[..|labels| - 1]) +
      (if l.Receive? && (l.frame.kind == 4 || l.frame.kind == 8 || (l.frame.kind == 6 && l.frame.flags % 2 == 0))
       then [l.frame] else [])
  }

  /** The response frames among them, their header padding and priority removed. */
  function Responses(labels: seq<Label>): seq<Frame> {
    if labels == [] then []
    else
      var l := labels[|labels| - 1];
      Responses(labels[..|labels| - 1]) +
      (if !l.Receive? then []
       else if l.frame.kind == 0 || l.frame.kind == 9 then [l.frame]
       else if l.frame.kind == 1 && l.frame.Strippable() then [l.frame.(payload := l.frame.Content())]
       else [])
  }

  lemma ReceiveRecords(e: Exchange, s: State, f: Frame, next: State)
    requires ReaderStep(e, s, Receive(f)) == Some(next) && !next.failed
    ensures next.controls == s.controls +
              if f.kind == 4 || f.kind == 8 || (f.kind == 6 && f.flags % 2 == 0) then [f] else []
    ensures next.received == s.received +
              if f.kind == 0 || f.kind == 9 then [f]
              else if f.kind == 1 && f.Strippable() then [f.(payload := f.Content())] else []
  {
    hide Assembly.Accept, SettingsLawful;
    assert s.controls + [] == s.controls && s.received + [] == s.received;
  }

  lemma OtherRecords(e: Exchange, s: State, l: Label, next: State)
    requires !l.Receive? && Step(e, s, l) == Some(next)
    ensures next.controls == s.controls && next.received == s.received
  {
    hide Assembly.Accept, Assembly.Finish, Gate.Admit, Exchange.Head, Flow.Windows.Observed, Flow.Windows.Allowance;
  }

  /**
   * In every run that has not failed, the control frames passed on and the response frames accepted are all
   * those that arrived, in the order they arrived: none is dropped.
   */
  lemma {:induction false} NothingDropped(e: Exchange, labels: seq<Label>)
    requires Run(e, labels).Some? && !Run(e, labels).value.failed
    ensures Run(e, labels).value.controls == Controls(labels) && Run(e, labels).value.received == Responses(labels)
  {
    hide Step;
    if labels != [] {
      var before, l := labels[..|labels| - 1], labels[|labels| - 1];
      var s, next := Run(e, before).value, Run(e, labels).value;
      StillGoing(e, s, l, next);
      NothingDropped(e, before);
      if l.Receive? {
        ReceiveRecords(e, s, l.frame, next);
      } else {
        OtherRecords(e, s, l, next);
        assert s.controls + [] == s.controls && s.received + [] == s.received;
      }
    }
  }

  lemma StillGoing(e: Exchange, s: State, l: Label, next: State)
    requires Step(e, s, l) == Some(next)
    ensures !s.failed && (l.Receive? ==> ReaderStep(e, s, l) == Some(next))
  {
  }

  /**
   * What a control frame ends: a reset, an acknowledgement of settings never sent, and a GOAWAY that leaves
   * our stream behind or names an error; no other frame that is not the response's.
   */
  lemma ReceiveFailsIff(e: Exchange, s: State, f: Frame, next: State)
    requires !s.failed && ReaderStep(e, s, Receive(f)) == Some(next) && f.kind != 0 && f.kind != 1 && f.kind != 9
    ensures next.failed <==> f.kind == 3 || (f.kind == 4 && f.flags % 2 == 1) || (f.kind == 7 && !PoliteGoaway(f))
  {
    hide Assembly.Accept, SettingsLawful;
  }

  /**
   * Which control frames the send windows hear of: all settings, and updates but those of a finished
   * request's stream.
   */
  lemma TakeObserves(e: Exchange, s: State, f: Frame, next: State)
    requires !s.failed && WriterStep(e, s, Take) == Some(next) && !next.failed && s.channel == Some(Control(f))
    ensures next.actions == s.actions +
              if f.kind == 4 || (f.kind == 8 && !(s.writer == Finishing && f.stream == 1)) then [Flow.Observe(f)]
                  else []
  {
    hide Flow.Windows.Observed;
    assert s.actions + [] == s.actions;
  }
}
