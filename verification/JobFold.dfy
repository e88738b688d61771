/**
 * What events and snapshots do to what is known about one remote job.
 *
 * `Reduce` and `Converge` are the two folds.  A `History` is the agent's own account of the job, position
 * by position; when everything that arrives comes from one history, whatever is lost, repeated or
 * reordered, what is held is that history's account at the position it holds.
 */
module JobFold {
  import opened Bytes
  import opened EventStream

  // ----- observations

  datatype Account = Account(state: JobState, attempt: nat, progress: nat)

  datatype Observation = Observation(sequence: nat, account: Account)

  predicate Ending(state: JobState) { state == SucceededState || state == FailedState }

  predicate MayBecome(from: JobState, to: JobState) {
    match from
    case Queued => true
    case Running => to != Queued
    case _ => from == to
  }

  datatype Failure = EndingIsFinal | RunningCannotRequeue | AttemptRegressed | ProgressRegressed

  function Objection(held: Account, next: Account): Option<Failure> {
    if Ending(held.state) && held.state != next.state then Some(EndingIsFinal)
    else if !MayBecome(held.state, next.state) then Some(RunningCannotRequeue)
    else if next.attempt < held.attempt then Some(AttemptRegressed)
    else if next.progress < held.progress then Some(ProgressRegressed)
    else None
  }

  // ----- one event

  datatype JobEvent = JobEvent(generation: nat, operation: seq<byte>, kind: Kind, sequence: nat, attempt: Option<nat>,
                               progress: Option<nat>, terminal: Option<Correlation>)

  /** What the daemon submitted under. */
  datatype Binding = Binding(generation: nat, operation: seq<byte>, provenanceOk: seq<byte> -> bool, digest: seq<byte>)

  datatype Refusal = AnotherJob | AnotherSubmission | Provenance | CorrelationMisplaced | Job(failure: Failure)

  datatype Disposition = Applied | ExactReplay | StaleCursorOnly | NeedsSnapshot | IntegrityConflict

  datatype Reduced = Reduced(disposition: Disposition, next: Option<Observation>) | Refused(refusal: Refusal)

  function Unbound(b: Binding, e: JobEvent): Option<Refusal> {
    match e.terminal
    case None => if Terminal(e.kind) then Some(CorrelationMisplaced) else None
    case Some(c) =>
      if !Terminal(e.kind) then Some(CorrelationMisplaced)
      else if !b.provenanceOk(c.provenance) then Some(Provenance)
      else if c.digest != b.digest then Some(AnotherSubmission)
      else None
  }

  function Or(given: Option<nat>, held: nat): nat {
    match given case None => held case Some(n) => n
  }

  /** Missing counters keep the retained ones. */
  function Described(held: Account, e: JobEvent): Account {
    Account(StateOf(e.kind), Or(e.attempt, held.attempt), Or(e.progress, held.progress))
  }

  /** Saturating, as 64-bit positions are. */
  predicate ImmediatelyFollows(sequence: nat, held: nat) {
    sequence == if held < U64_MAX then held + 1 else U64_MAX
  }

  function Reduce(held: Observation, b: Binding, e: JobEvent): Reduced {
    if e.generation != b.generation || e.operation != b.operation then Refused(AnotherJob)
    else if Unbound(b, e).Some? then Refused(Unbound(b, e).value)
    else
      var said := Described(held.account, e);
      if e.sequence == held.sequence then
        Reduced(if held.account == said then ExactReplay else IntegrityConflict, None)
      else if e.sequence < held.sequence then Reduced(StaleCursorOnly, None)
      else if !ImmediatelyFollows(e.sequence, held.sequence) then Reduced(NeedsSnapshot, None)
      else match Objection(held.account, said)
        case Some(failure) => Refused(Job(failure))
        case None => Reduced(Applied, Some(Observation(e.sequence, said)))
  }

  // ----- one snapshot

  datatype Snapshot = Snapshot(kind: Kind, sequence: nat, attempt: nat, progress: nat, retention: nat)

  datatype Answer = Missing | Retired(echoed: bool) | Found(echoed: bool, snapshot: Snapshot)

  datatype Convergence =
    | Unchanged | Advanced(next: Observation) | StaleSnapshot | ReadyToSettle(next: Observation)
    | RecoveryWindowExpired | GraceRequired(until: nat) | Indeterminate
    | NotEchoed | RetentionExpired | Impossible(failure: Failure)

  function SaturatingAdd(a: nat, b: nat): nat { if a + b > U64_MAX then U64_MAX else a + b }

  function Elapsed(submitted: nat, now: nat): nat { if now < submitted then 0 else now - submitted }

  function Told(s: Snapshot): Account { Account(StateOf(s.kind), s.attempt, s.progress) }

  function Converge(held: Observation, s: Snapshot, submitted: nat, now: nat): Convergence {
    if s.sequence < held.sequence then StaleSnapshot
    else if s.sequence == held.sequence && Told(s) == held.account then Unchanged
    else match Objection(held.account, Told(s))
      case Some(failure) => Impossible(failure)
      case None =>
        var next := Observation(s.sequence, Told(s));
        if !Ending(next.account.state) then Advanced(next)
        else if Elapsed(submitted, now) >= s.retention then RetentionExpired
        else ReadyToSettle(next)
  }

  function MissingConvergence(submitted: nat, now: nat, grace: nat): Convergence {
    var until := SaturatingAdd(submitted, grace);
    if now < until then GraceRequired(until) else Indeterminate
  }

  function Reconcile(held: Observation, answer: Answer, submitted: nat, now: nat, grace: nat): Convergence {
    match answer
    case Missing => MissingConvergence(submitted, now, grace)
    case Retired(echoed) => if echoed then RecoveryWindowExpired else NotEchoed
    case Found(echoed, s) => if echoed then Converge(held, s, submitted, now) else NotEchoed
  }

  /** A missing operation is given its whole grace and not a moment more. */
  lemma GraceIff(submitted: nat, now: nat, grace: nat)
    requires now <= U64_MAX
    ensures MissingConvergence(submitted, now, grace).GraceRequired? <==> now < U64_MAX && now < submitted + grace
    ensures MissingConvergence(submitted, now, grace).GraceRequired? ==>
              now < MissingConvergence(submitted, now, grace).until <= submitted + grace
  {
  }

  // ----- runs

  datatype Input = Event(event: JobEvent) | Asked(answer: Answer, submitted: nat, now: nat, grace: nat)

  /** What the holder keeps. */
  function Kept(held: Observation, b: Binding, input: Input): Observation {
    match input
    case Event(e) => (match Reduce(held, b, e) case Reduced(_, Some(next)) => next case _ => held)
    case Asked(answer, submitted, now, grace) =>
      match Reconcile(held, answer, submitted, now, grace)
      case Advanced(next) => next
      case ReadyToSettle(next) => next
      case _ => held
  }

  function Run(held: Observation, b: Binding, inputs: seq<Input>): Observation
    decreases |inputs|
  {
    if inputs == [] then held else Run(Kept(held, b, inputs[0]), b, inputs[1..])
  }

  /** What can come after what: the order every account of one job keeps. */
  predicate Reaches(from: Account, to: Account) {
    MayBecome(from.state, to.state) && from.attempt <= to.attempt && from.progress <= to.progress
  }

  lemma ReachesBack(a: Account, b: Account, c: Account)
    requires Reaches(a, b) && Reaches(b, c)
    ensures Reaches(a, c)
  {
  }

  lemma KeptForward(held: Observation, b: Binding, input: Input)
    ensures var next := Kept(held, b, input);
            held.sequence <= next.sequence && Reaches(held.account, next.account)
  {
  }

  /** Whatever arrives, however inconsistent: positions, counters and states never go back, and endings stay. */
  lemma {:induction false} AnyRunForward(held: Observation, b: Binding, inputs: seq<Input>)
    ensures var next := Run(held, b, inputs);
            && held.sequence <= next.sequence && Reaches(held.account, next.account)
            && (Ending(held.account.state) ==> next.account.state == held.account.state)
    decreases |inputs|
  {
    if inputs != [] {
      var one := Kept(held, b, inputs[0]);
      KeptForward(held, b, inputs[0]);
      AnyRunForward(one, b, inputs[1..]);
      ReachesBack(held.account, one.account, Run(one, b, inputs[1..]).account);
    }
  }

  // ----- one history

  /** Position q is at index q - 1. */
  type History = seq<Account>

  predicate Consistent(h: History) {
    && |h| <= U64_MAX
    && forall i, j :: 0 <= i <= j < |h| ==> Reaches(h[i], h[j])
  }

  function At(h: History, sequence: nat): Account
    requires 1 <= sequence <= |h|
  {
    h[sequence - 1]
  }

  /** A counter may be left out of an event only where the history did not move it. */
  predicate Tells(given: Option<nat>, value: nat, before: nat) {
    match given case None => value == before case Some(n) => n == value
  }

  predicate EventFrom(h: History, b: Binding, e: JobEvent) {
    && Bound(h, b, e)
    && var now, before := At(h, e.sequence), At(h, if e.sequence == 1 then 1 else e.sequence - 1);
       Tells(e.attempt, now.attempt, before.attempt) && Tells(e.progress, now.progress, before.progress)
  }

  predicate SnapshotFrom(h: History, s: Snapshot) {
    1 <= s.sequence <= |h| && Told(s) == At(h, s.sequence)
  }

  predicate From(h: History, b: Binding, input: Input) {
    match input
    case Event(e) => EventFrom(h, b, e)
    case Asked(Found(_, s), _, _, _) => SnapshotFrom(h, s)
    case _ => true
  }

  predicate Holds(h: History, held: Observation) {
    1 <= held.sequence <= |h| && held.account == At(h, held.sequence)
  }

  /** The disposition of an event is decided by its position alone: no conflict, no refusal. */
  lemma EventDisposed(h: History, b: Binding, held: Observation, e: JobEvent)
    requires Consistent(h) && Holds(h, held) && EventFrom(h, b, e)
    ensures Reduce(held, b, e) ==
            if e.sequence < held.sequence then Reduced(StaleCursorOnly, None)
            else if e.sequence == held.sequence then Reduced(ExactReplay, None)
            else if e.sequence == held.sequence + 1 then
              Reduced(Applied, Some(Observation(e.sequence, At(h, e.sequence))))
            else Reduced(NeedsSnapshot, None)
  {
    if e.sequence == held.sequence + 1 {
      assert Reaches(h[held.sequence - 1], h[e.sequence - 1]);
      assert Described(held.account, e) == At(h, e.sequence);
    } else if e.sequence == held.sequence && e.sequence > 1 {
      ReplayDescribed(h, b, held, e);
    }
  }

  /** An event that says all it says of the history, counters aside. */
  predicate Bound(h: History, b: Binding, e: JobEvent) {
    && e.generation == b.generation && e.operation == b.operation && Unbound(b, e).None?
    && 1 <= e.sequence <= |h| && StateOf(e.kind) == At(h, e.sequence).state
  }

  /**
   * Why counters may be left out only where the history did not move them: the next event brings the holder
   * to the history's account exactly when each counter is given as it is, or left out unmoved.
   */
  lemma NextAgreesIff(h: History, b: Binding, held: Observation, e: JobEvent)
    requires Consistent(h) && Holds(h, held) && Bound(h, b, e) && e.sequence == held.sequence + 1
    ensures Kept(held, b, Input.Event(e)) == Observation(e.sequence, At(h, e.sequence)) <==>
              && Tells(e.attempt, At(h, e.sequence).attempt, held.account.attempt)
              && Tells(e.progress, At(h, e.sequence).progress, held.account.progress)
  {
    assert Reaches(h[held.sequence - 1], h[e.sequence - 1]);
  }

  /** A repeated event says what is held, counters left out or not. */
  lemma ReplayDescribed(h: History, b: Binding, held: Observation, e: JobEvent)
    requires Holds(h, held) && EventFrom(h, b, e) && e.sequence == held.sequence
    ensures Described(held.account, e) == held.account
  {
  }

  lemma SnapshotConverges(h: History, held: Observation, s: Snapshot, submitted: nat, now: nat)
    requires Consistent(h) && Holds(h, held) && SnapshotFrom(h, s)
    ensures var next := Observation(s.sequence, At(h, s.sequence));
            Converge(held, s, submitted, now) ==
            if s.sequence < held.sequence then StaleSnapshot
            else if s.sequence == held.sequence then Unchanged
            else if !Ending(next.account.state) then Advanced(next)
            else if Elapsed(submitted, now) >= s.retention then RetentionExpired
            else ReadyToSettle(next)
  {
    if s.sequence > held.sequence { assert Reaches(h[held.sequence - 1], h[s.sequence - 1]); }
  }

  lemma KeptHolds(h: History, b: Binding, held: Observation, input: Input)
    requires Consistent(h) && Holds(h, held) && From(h, b, input)
    ensures Holds(h, Kept(held, b, input)) && held.sequence <= Kept(held, b, input).sequence
    ensures input.Event? && input.event.sequence == held.sequence + 1 ==>
              Kept(held, b, input).sequence == input.event.sequence
    ensures input.Event? && input.event.sequence != held.sequence + 1 ==> Kept(held, b, input) == held
  {
    hide Reduce, Converge;
    match input
    case Event(e) => EventDisposed(h, b, held, e);
    case Asked(Found(echoed, s), submitted, now, _) => SnapshotConverges(h, held, s, submitted, now);
    case _ =>
  }

  predicate AllFrom(h: History, b: Binding, inputs: seq<Input>) {
    forall i :: 0 <= i < |inputs| ==> From(h, b, inputs[i])
  }

  /**
   * History agreement: after any run of events and snapshots of one history, duplicated, dropped and
   * reordered as they may be, what is held is that history's account at its position, and the position
   * has not gone back.
   */
  lemma {:induction false} HistoryAgreement(h: History, b: Binding, held: Observation, inputs: seq<Input>)
    requires Consistent(h) && Holds(h, held) && AllFrom(h, b, inputs)
    ensures Holds(h, Run(held, b, inputs)) && held.sequence <= Run(held, b, inputs).sequence
    decreases |inputs|
  {
    if inputs != [] {
      KeptHolds(h, b, held, inputs[0]);
      HistoryAgreement(h, b, Kept(held, b, inputs[0]), inputs[1..]);
    }
  }

  /** And nothing along the way is a conflict or a refusal, except a result that is already gone. */
  lemma NoConflict(h: History, b: Binding, start: Observation, inputs: seq<Input>, k: nat)
    requires Consistent(h) && Holds(h, start) && AllFrom(h, b, inputs) && k < |inputs|
    ensures var held := Run(start, b, inputs[..k]);
            match inputs[k]
            case Event(e) => Reduce(held, b, e).Reduced? && Reduce(held, b, e).disposition != IntegrityConflict
            case Asked(answer, submitted, now, grace) => !Reconcile(held, answer, submitted, now, grace).Impossible?
  {
    assert forall i :: 0 <= i < k ==> inputs[..k][i] == inputs[i];
    HistoryAgreement(h, b, start, inputs[..k]);
    var held := Run(start, b, inputs[..k]);
    assert From(h, b, inputs[k]);
    match inputs[k]
    case Event(e) => EventDisposed(h, b, held, e);
    case Asked(Found(_, s), submitted, now, _) => SnapshotConverges(h, held, s, submitted, now);
    case _ =>
  }

  /** The events from one position to another, in order, somewhere among the inputs. */
  predicate Carries(inputs: seq<Input>, from: nat, to: nat)
    decreases |inputs|
  {
    from > to || (inputs != [] && Carries(inputs[1..], if IsEvent(inputs[0], from) then from + 1 else from, to))
  }

  predicate IsEvent(input: Input, sequence: nat) { input.Event? && input.event.sequence == sequence }

  /** Events that do arrive in order are enough, whatever arrives between them. */
  lemma {:induction false} InOrderIsEnough(h: History, b: Binding, held: Observation, inputs: seq<Input>, from: nat,
                                           to: nat)
    requires Consistent(h) && Holds(h, held) && AllFrom(h, b, inputs)
    requires from <= held.sequence + 1 && to <= |h| && Carries(inputs, from, to)
    ensures to <= Run(held, b, inputs).sequence || to < from
    decreases |inputs|
  {
    if from > to {
    } else {
      var next := Kept(held, b, inputs[0]);
      KeptHolds(h, b, held, inputs[0]);
      var more := if IsEvent(inputs[0], from) then from + 1 else from;
      InOrderIsEnough(h, b, next, inputs[1..], more, to);
      if to < more { HistoryAgreement(h, b, next, inputs[1..]); }
    }
  }

  // ----- the tables behind these

  /** Which account may follow which: a job never goes back to the queue, never leaves an ending, never counts down. */
  lemma AdvanceIff(held: Account, next: Account)
    ensures Objection(held, next).None? <==>
              && held.attempt <= next.attempt && held.progress <= next.progress
              && (held.state == next.state || held.state == Queued || (held.state == Running && next.state != Queued))
    ensures Objection(held, next) == Some(EndingIsFinal) <==>
              (held.state == SucceededState || held.state == FailedState) && held.state != next.state
    ensures Objection(held, next) == Some(RunningCannotRequeue) <==> held.state == Running && next.state == Queued
    ensures Objection(held, next) == Some(AttemptRegressed) <==>
              Reaches(held, Account(next.state, held.attempt, held.progress)) && next.attempt < held.attempt
    ensures Objection(held, next) == Some(ProgressRegressed) <==>
              Reaches(held, next.(progress := held.progress)) && next.progress < held.progress
  {
  }

  /** The state an event or a snapshot of each kind describes. */
  lemma KindsDescribe(held: Account, e: JobEvent, s: Snapshot)
    ensures Described(held, e).state == Queued <==> e.kind == Accepted
    ensures Described(held, e).state == Running <==> e.kind == Started || e.kind == Progress
    ensures Described(held, e).state == SucceededState <==> e.kind == Succeeded
    ensures Described(held, e).state == FailedState <==> e.kind == EventStream.Failed
    ensures Told(s) == Account(Described(held, e.(kind := s.kind)).state, s.attempt, s.progress)
  {
  }

  const ENDINGS: set<Kind> := {Succeeded, EventStream.Failed}

  /** An ending carries the correlation of its own submission, and nothing else carries one. */
  lemma BoundIff(b: Binding, e: JobEvent)
    ensures Unbound(b, e).None? <==>
              if e.kind == Succeeded || e.kind == EventStream.Failed then
                e.terminal.Some? && b.provenanceOk(e.terminal.value.provenance) && e.terminal.value.digest == b.digest
              else e.terminal.None?
    ensures Unbound(b, e) == Some(CorrelationMisplaced) <==> (e.terminal.Some? <==> !(e.kind in ENDINGS))
    ensures Unbound(b, e) == Some(Provenance) <==>
              e.kind in ENDINGS && e.terminal.Some? && !b.provenanceOk(e.terminal.value.provenance)
  {
  }

  /** An event of another operation or generation changes nothing, and neither does one that is not bound. */
  lemma ForeignEvent(held: Observation, b: Binding, e: JobEvent)
    requires e.generation != b.generation || e.operation != b.operation || Unbound(b, e).Some?
    ensures Kept(held, b, Input.Event(e)) == held && Reduce(held, b, e).Refused?
  {
  }

  /** An answer that is missing, retired, or does not echo what was asked changes nothing; which it was is told. */
  lemma UnansweredKeeps(held: Observation, b: Binding, answer: Answer, submitted: nat, now: nat, grace: nat)
    requires answer.Found? ==> !answer.echoed
    ensures Kept(held, b, Asked(answer, submitted, now, grace)) == held
    ensures answer.Retired? ==>
              Reconcile(held, answer, submitted, now, grace) == if answer.echoed then RecoveryWindowExpired
                  else NotEchoed
    ensures answer.Found? ==> Reconcile(held, answer, submitted, now, grace) == NotEchoed
    ensures answer.Missing? ==>
              Reconcile(held, answer, submitted, now, grace) ==
              var until := if submitted + grace > U64_MAX then U64_MAX else submitted + grace;
              if now < until then GraceRequired(until) else Indeterminate
  {
  }

  /** What an event says of the job, with the counters it leaves out as they are held. */
  predicate SaysOf(held: Account, e: JobEvent, next: Account) {
    && next.state == StateOf(e.kind)
    && next.attempt == (if e.attempt.Some? then e.attempt.value else held.attempt)
    && next.progress == (if e.progress.Some? then e.progress.value else held.progress)
  }

  /** Whatever is held and whatever the event says: which disposition it gets, by position and by account. */
  lemma DisposedIff(held: Observation, b: Binding, e: JobEvent, next: Account)
    requires held.sequence <= U64_MAX && e.sequence <= U64_MAX && SaysOf(held.account, e, next)
    requires e.generation == b.generation && e.operation == b.operation && Unbound(b, e).None?
    ensures Reduce(held, b, e) == Reduced(StaleCursorOnly, None) <==> e.sequence < held.sequence
    ensures Reduce(held, b, e) == Reduced(ExactReplay, None) <==>
              e.sequence == held.sequence && next == held.account
    ensures Reduce(held, b, e) == Reduced(IntegrityConflict, None) <==>
              e.sequence == held.sequence && next != held.account
    ensures Reduce(held, b, e) == Reduced(NeedsSnapshot, None) <==> e.sequence > held.sequence + 1
    ensures Reduce(held, b, e) == Reduced(Applied, Some(Observation(e.sequence, next))) <==>
              e.sequence == held.sequence + 1 && Reaches(held.account, next)
    ensures Reduce(held, b, e).Refused? <==> e.sequence == held.sequence + 1 && !Reaches(held.account, next)
  {
  }

  /** Whatever is held and whatever a snapshot says: when it is adopted, and what else becomes of it. */
  lemma ConvergedIff(held: Observation, s: Snapshot, submitted: nat, now: nat, next: Observation)
    requires next == Observation(s.sequence, Account(StateOf(s.kind), s.attempt, s.progress))
    ensures Converge(held, s, submitted, now) == StaleSnapshot <==> s.sequence < held.sequence
    ensures Converge(held, s, submitted, now) == Unchanged <==> next == held
    ensures Converge(held, s, submitted, now).Impossible? <==>
              held.sequence <= s.sequence && !Reaches(held.account, next.account)
    ensures Converge(held, s, submitted, now) == Advanced(next) <==>
              held.sequence <= s.sequence && next != held && Reaches(held.account, next.account) && s.kind !in ENDINGS
    ensures Converge(held, s, submitted, now) == ReadyToSettle(next) <==>
              && held.sequence <= s.sequence && next != held && Reaches(held.account, next.account) && s.kind in ENDINGS
              && s.retention > 0 && now < submitted + s.retention
    ensures Converge(held, s, submitted, now) == RetentionExpired <==>
              && held.sequence <= s.sequence && next != held && Reaches(held.account, next.account) && s.kind in ENDINGS
              && (s.retention == 0 || submitted + s.retention <= now)
  {
  }
}
