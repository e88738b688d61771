/** Send and receive windows of the single request on stream 1 (sections 5.2, 6.5.2 and 6.9 of RFC 9113). */
module Http2Flow {
  import opened Bytes
  import opened Http2Frames

  const INITIAL_WINDOW: int := 65535
  const MAXIMUM_WINDOW: int := 0x7fff_ffff

  // ----- sending

  datatype Windows = Windows(connection: int, stream: int, initial: int) {
    /** The stream window is signed: shrinking the initial size may leave it owing. */
    predicate Valid() {
      && 0 <= connection <= MAXIMUM_WINDOW
      && 0 <= initial <= MAXIMUM_WINDOW
      && -MAXIMUM_WINDOW <= stream <= MAXIMUM_WINDOW
      && -MAXIMUM_WINDOW <= stream - initial
    }

    function Resized(size: nat): Option<Windows> {
      if size > MAXIMUM_WINDOW || stream + (size - initial) > MAXIMUM_WINDOW then None
      else Some(this.(stream := stream + (size - initial), initial := size))
    }

    function Credited(id: nat, increment: nat): Option<Windows> {
      if increment == 0 || increment > MAXIMUM_WINDOW || id > 1 then None
      else if id == 0 then
        if connection + increment > MAXIMUM_WINDOW then None
        else Some(this.(connection := connection + increment))
      else if stream + increment > MAXIMUM_WINDOW then None
      else Some(this.(stream := stream + increment))
    }

    /** Settings apply in order, and one that overflows refuses them all. */
    function Settled(payload: seq<byte>): Option<Windows>
      requires |payload| % 6 == 0
      decreases |payload|
    {
      if payload == [] then Some(this)
      else if U16(payload[..2]) != 4 then Settled(payload[6..])
      else match Resized(U32(payload[2..6]))
        case None => None
        case Some(next) => next.Settled(payload[6..])
    }

    function Observed(f: Frame): Option<Windows> {
      if f.kind == SETTINGS && f.stream == 0 && |f.payload| % 6 == 0
          && (f.Ack() ==> f.payload == []) then Settled(f.payload)
      else if f.kind == WINDOW_UPDATE && |f.payload| == 4 then Credited(f.stream, U31(f.payload))
      else None
    }

    function Allowance(remaining: nat): nat {
      var allowed := if connection <= stream then connection else stream;
      var some := if remaining <= MAXIMUM_FRAME_BYTES then remaining else MAXIMUM_FRAME_BYTES;
      if allowed <= 0 then 0 else if some <= allowed then some else allowed
    }

    function Reserved(remaining: nat): Windows {
      var count := Allowance(remaining);
      this.(connection := connection - count, stream := stream - count)
    }
  }

  const START: Windows := Windows(INITIAL_WINDOW, INITIAL_WINDOW, INITIAL_WINDOW)

  /** The initial window sizes a SETTINGS payload asks for, in order. */
  function Sizes(payload: seq<byte>): seq<nat>
    requires |payload| % 6 == 0
  {
    if payload == [] then []
    else (if U16(payload[..2]) == 4 then [U32(payload[2..6])] else []) + Sizes(payload[6..])
  }

  /** The size in force behind them. */
  function LastSize(sizes: seq<nat>, before: int): int {
    if sizes == [] then before else sizes[|sizes| - 1]
  }

  /**
   * Every one of these sizes is legal and leaves a stream window that is ahead of its size by `ahead`
   * representable.
   */
  predicate Fit(sizes: seq<nat>, ahead: int) {
    forall k :: 0 <= k < |sizes| ==> sizes[k] <= MAXIMUM_WINDOW && ahead + sizes[k] <= MAXIMUM_WINDOW
  }

  lemma FitFirst(size: nat, sizes: seq<nat>, ahead: int)
    ensures Fit([size] + sizes, ahead) <==>
              size <= MAXIMUM_WINDOW && ahead + size <= MAXIMUM_WINDOW && Fit(sizes, ahead)
  {
    var all := [size] + sizes;
    if Fit(all, ahead) {
      assert all[0] == size;
      assert forall k :: 0 <= k < |sizes| ==> sizes[k] == all[k + 1];
    }
  }

  /**
   * What a SETTINGS payload does, said without an order of steps: it is taken exactly when every size it
   * asks for leaves the stream window representable, and then only the last size counts.
   */
  lemma {:induction false} SettledIff(w: Windows, payload: seq<byte>)
    requires |payload| % 6 == 0
    ensures w.Settled(payload).Some? <==> Fit(Sizes(payload), w.stream - w.initial)
    ensures w.Settled(payload).Some? ==>
              var last := LastSize(Sizes(payload), w.initial);
              w.Settled(payload).value == w.(stream := w.stream - w.initial + last, initial := last)
    decreases |payload|
  {
    hide U16, U32, Fit;
    if payload == [] {
      assert Fit([], w.stream - w.initial) by { NoneFit(w.stream - w.initial); }
    } else {
      var rest := payload[6..];
      var sizes := Sizes(rest);
      if U16(payload[..2]) != 4 {
        SettledIff(w, rest);
        assert Sizes(payload) == sizes;
      } else {
        var size := U32(payload[2..6]);
        assert Sizes(payload) == [size] + sizes;
        FitFirst(size, sizes, w.stream - w.initial);
        match w.Resized(size)
        case None =>
        case Some(next) => SettledIff(next, rest);
      }
    }
  }

  lemma NoneFit(ahead: int)
    ensures Fit([], ahead)
  {
  }

  lemma ObservedValid(w: Windows, f: Frame)
    requires w.Valid() && w.Observed(f).Some?
    ensures w.Observed(f).value.Valid()
  {
    hide U31, U32, U16;
    if f.kind == SETTINGS {
      SettledIff(w, f.payload);
      var sizes := Sizes(f.payload);
      if sizes != [] { assert sizes[|sizes| - 1] <= MAXIMUM_WINDOW; }
    }
  }

  lemma ReservedValid(w: Windows, remaining: nat)
    requires w.Valid()
    ensures w.Reserved(remaining).Valid()
  {
  }

  /** Credit is taken exactly when it is legal, for one of the two windows, and leaves it representable. */
  lemma CreditedIff(w: Windows, id: nat, increment: nat)
    ensures w.Credited(id, increment).Some? <==>
              0 < increment <= 0x7fff_ffff && ((id == 0 && w.connection + increment <= 0x7fff_ffff) ||
                                               (id == 1 && w.stream + increment <= 0x7fff_ffff))
    ensures w.Credited(id, increment).Some? ==>
              w.Credited(id, increment).value ==
              if id == 0 then w.(connection := w.connection + increment) else w.(stream := w.stream + increment)
  {
  }

  /** A reservation is the most that body, frame and both windows allow, and never more than any of them. */
  lemma AllowanceIsMost(w: Windows, remaining: nat, n: nat)
    ensures w.Allowance(remaining) <= remaining && w.Allowance(remaining) <= 16384
    ensures w.Allowance(remaining) > 0 ==> w.Allowance(remaining) <= w.connection && w.Allowance(remaining) <= w.stream
    ensures n <= remaining && n <= 16384 && n <= w.connection && n <= w.stream ==> n <= w.Allowance(remaining)
  {
  }

  // ----- runs

  datatype Action = Observe(frame: Frame) | Reserve(remaining: nat)

  /** A refused frame changes nothing. */
  function After(w: Windows, a: Action): Windows {
    match a
    case Observe(f) => (match w.Observed(f) case None => w case Some(next) => next)
    case Reserve(remaining) => w.Reserved(remaining)
  }

  function Run(w: Windows, actions: seq<Action>): Windows {
    if actions == [] then w else After(Run(w, actions[..|actions| - 1]), actions[|actions| - 1])
  }

  /** What the peer has granted on a stream, what it last asked for, and what has been taken: a ledger. */
  datatype Ledger = Ledger(connectionCredit: nat, streamCredit: nat, reserved: nat, initial: int)

  function Entry(l: Ledger, w: Windows, a: Action): Ledger {
    match a
    case Reserve(remaining) => l.(reserved := l.reserved + w.Allowance(remaining))
    case Observe(f) =>
      if w.Observed(f).None? then l
      else if f.kind == SETTINGS && |f.payload| % 6 == 0 then l.(initial := LastSize(Sizes(f.payload), l.initial))
      else if |f.payload| == 4 && f.stream == 0 then l.(connectionCredit := l.connectionCredit + U31(f.payload))
      else if |f.payload| == 4 then l.(streamCredit := l.streamCredit + U31(f.payload))
      else l
  }

  function Book(actions: seq<Action>): Ledger {
    if actions == [] then Ledger(0, 0, 0, INITIAL_WINDOW)
    else
      var before := actions[..|actions| - 1];
      Entry(Book(before), Run(START, before), actions[|actions| - 1])
  }

  /** Over every run the windows are exactly what the ledger says, and never leave their ranges. */
  lemma {:induction false} Conserved(actions: seq<Action>)
    ensures var w, l := Run(START, actions), Book(actions);
            && w.connection == 65535 + l.connectionCredit - l.reserved && 0 <= w.connection <= 0x7fff_ffff
            && w.stream == l.initial + l.streamCredit - l.reserved && -0x7fff_ffff <= w.stream <= 0x7fff_ffff
            && w.initial == l.initial && w.Valid()
    decreases |actions|
  {
    if actions != [] {
      var before, a := actions[..|actions| - 1], actions[|actions| - 1];
      Conserved(before);
      var w := Run(START, before);
      match a
      case Reserve(remaining) => ReservedValid(w, remaining);
      case Observe(f) =>
        if w.Observed(f).Some? {
          ObservedValid(w, f);
          if f.kind == SETTINGS { SettledIff(w, f.payload); }
        }
    }
  }

  class SendWindows {
    var connection: int
    var stream: int
    var initialStream: int

    ghost function View(): Windows reads this {
      Windows(connection, stream, initialStream)
    }

    constructor ()
      ensures View() == START && View().Valid()
    {
      connection, stream, initialStream := INITIAL_WINDOW, INITIAL_WINDOW, INITIAL_WINDOW;
    }

    constructor Copy(other: SendWindows)
      ensures View() == other.View()
    {
      connection, stream, initialStream := other.connection, other.stream, other.initialStream;
    }

    method InitialStreamSize(size: nat) returns (ok: bool)
      modifies this
      ensures ok == old(View()).Resized(size).Some?
      ensures View() == if ok then old(View()).Resized(size).value else old(View())
    {
      if size > MAXIMUM_WINDOW {
        return false;
      }
      var change := size - initialStream;
      if stream + change > MAXIMUM_WINDOW {
        return false;
      }
      stream, initialStream, ok := stream + change, size, true;
    }

    method Credit(id: nat, increment: nat) returns (ok: bool)
      modifies this
      ensures ok == old(View()).Credited(id, increment).Some?
      ensures View() == if ok then old(View()).Credited(id, increment).value else old(View())
    {
      if increment == 0 || increment > MAXIMUM_WINDOW {
        return false;
      }
      if id == 0 {
        ok := connection + increment <= MAXIMUM_WINDOW;
        if ok { connection := connection + increment; }
      } else if id == 1 {
        ok := stream + increment <= MAXIMUM_WINDOW;
        if ok { stream := stream + increment; }
      } else {
        ok := false;
      }
    }

    /** Settings are applied to a copy: a frame that fails halfway leaves no trace. */
    method Observe(f: Frame) returns (ok: bool)
      requires View().Valid()
      modifies this
      ensures ok == old(View()).Observed(f).Some?
      ensures View() == if ok then old(View()).Observed(f).value else old(View())
      ensures View().Valid()
    {
      hide U31, U32, U16, Flag;
      ghost var before := View();
      var next := new SendWindows.Copy(this);
      if f.kind == SETTINGS && f.stream == 0 && |f.payload| % 6 == 0 && (!f.Ack() || f.payload == []) {
        ok := next.Apply(f.payload);
      } else if f.kind == WINDOW_UPDATE && |f.payload| == 4 {
        ok := next.Credit(f.stream, U31(f.payload));
      } else {
        ok := false;
      }
      if ok {
        connection, stream, initialStream := next.connection, next.stream, next.initialStream;
        ObservedValid(before, f);
      }
    }

    method Apply(payload: seq<byte>) returns (ok: bool)
      requires |payload| % 6 == 0
      modifies this
      ensures ok == old(View()).Settled(payload).Some?
      ensures ok ==> View() == old(View()).Settled(payload).value
    {
      hide U32, U16, Windows.Resized;
      var rest := payload;
      while rest != []
        invariant |rest| % 6 == 0
        invariant View().Settled(rest) == old(View()).Settled(payload)
        decreases |rest|
      {
        if U16(rest[..2]) == 4 {
          ok := InitialStreamSize(U32(rest[2..6]));
          if !ok {
            return;
          }
        }
        rest := rest[6..];
      }
      ok := true;
    }

    /** The next DATA payload, taken from both windows before it is written. */
    method Reserve(remaining: nat) returns (count: nat)
      requires View().Valid()
      modifies this
      ensures count == old(View()).Allowance(remaining) && View() == old(View()).Reserved(remaining)
      ensures View().Valid() && count <= remaining && count <= MAXIMUM_FRAME_BYTES
      ensures count > 0 ==> View().connection >= 0 && View().stream >= 0
      ensures count == 0 <==> remaining == 0 || old(connection) <= 0 || old(stream) <= 0
    {
      var allowance := if connection < stream then connection else stream;
      if allowance < 0 { allowance := 0; }
      count := if remaining < MAXIMUM_FRAME_BYTES then remaining else MAXIMUM_FRAME_BYTES;
      if allowance < count { count := allowance; }
      connection, stream := connection - count, stream - count;
    }
  }

  // ----- receiving

  /** The content of a DATA payload, behind and before its padding. */
  function DataContent(f: Frame): Option<seq<byte>> {
    if !f.Padded() then Some(f.payload)
    else if f.payload == [] || f.payload[0] + 1 > |f.payload| then None
    else Some(f.payload[1..|f.payload| - f.payload[0]])
  }

  /** A WINDOW_UPDATE frame as it is written. */
  function Update(id: nat, increment: nat): Frame
    requires increment < 0x1_0000_0000
  {
    Frame(WINDOW_UPDATE, 0, id, Octets32(increment))
  }

  class ReceiveWindows {
    var connection: nat
    var stream: nat

    constructor ()
      ensures connection == stream == INITIAL_WINDOW
    {
      connection, stream := INITIAL_WINDOW, INITIAL_WINDOW;
    }

    /** The whole payload is charged, padding included, before any content is exposed. */
    method ReceiveFrame(f: Frame) returns (permit: ReceivedPayload?, content: seq<byte>)
      modifies this
      ensures permit != null <==>
                && f.kind == DATA && f.stream == 1 && DataContent(f).Some?
                && |f.payload| <= old(connection) && |f.payload| <= old(stream)
      ensures permit != null ==>
                && fresh(permit) && permit.windows == this && permit.bytes == |f.payload| && !permit.spent
                && content == DataContent(f).value
                && connection == old(connection) - |f.payload| && stream == old(stream) - |f.payload|
      ensures permit == null ==> unchanged(this)
    {
      permit, content := null, [];
      if f.kind != DATA || f.stream != 1 {
        return;
      }
      var inner := f.payload;
      if Flag(f.flags, 8) {
        if f.payload == [] || |f.payload| - f.payload[0] < 1 {
          return;
        }
        inner := f.payload[1..|f.payload| - f.payload[0]];
      }
      if |f.payload| > connection || |f.payload| > stream {
        return;
      }
      connection, stream := connection - |f.payload|, stream - |f.payload|;
      permit := new ReceivedPayload(this, |f.payload|);
      content := inner;
    }
  }

  /** Receive credit held by the consumer; it goes back once, or not at all. */
  class ReceivedPayload {
    const windows: ReceiveWindows
    const bytes: nat
    var spent: bool

    constructor (windows: ReceiveWindows, bytes: nat)
      ensures this.windows == windows && this.bytes == bytes && !spent
    {
      this.windows, this.bytes, spent := windows, bytes, false;
    }

    /** The two updates restore exactly what was charged; an empty payload owes none. */
    method Release() returns (updates: Option<(seq<byte>, seq<byte>)>)
      requires !spent && bytes <= MAXIMUM_WINDOW
      modifies this, windows
      ensures spent
      ensures windows.connection == old(windows.connection) + bytes && windows.stream == old(windows.stream) + bytes
      ensures updates == if bytes == 0 then None else Some((Wire(Update(0, bytes)), Wire(Update(1, bytes))))
    {
      spent := true;
      if bytes == 0 {
        return None;
      }
      windows.connection, windows.stream := windows.connection + bytes, windows.stream + bytes;
      var increment := Octets32(bytes);
      assert Octets24(4) == [0, 0, 4] && Octets32(0) == [0, 0, 0, 0] && Octets32(1) == [0, 0, 0, 1];
      var connection, stream := [0, 0, 4, 8, 0, 0, 0, 0, 0] + increment, [0, 0, 4, 8, 0, 0, 0, 0, 1] + increment;
      assert connection == Wire(Update(0, bytes)) && stream == Wire(Update(1, bytes));
      updates := Some((connection, stream));
    }
  }

  /** What the peer reads in such an update: that credit, on that stream, as a frame any gate may admit. */
  lemma UpdateRead(id: nat, increment: nat, rest: seq<byte>)
    requires id <= 1 && 0 < increment <= MAXIMUM_WINDOW
    ensures Cut(Wire(Update(id, increment)) + rest) == Some((Update(id, increment), rest))
    ensures Update(id, increment).Local() && U31(Update(id, increment).payload) == increment
  {
    CutWire(Update(id, increment), rest);
    Numbers32(increment);
  }
}
