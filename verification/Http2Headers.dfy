/**
 * The bounded sink for a decoded response head: one `:status` first, then ordinary fields, each octet
 * checked before it is stored (section 8.3.2 of RFC 9113).
 */
module Http2Headers {
  import opened Bytes
  import opened Ascii
  import opened HpackTable
  import opened HpackSink

  /** The installed limits, and what the header library takes as a name and as a value. */
  datatype Bounds = Bounds(fieldCount: nat, fieldBytes: nat, headBytes: nat,
                           nameText: seq<byte> -> bool, valueText: seq<byte> -> bool)

  datatype Current = Current(name: seq<byte>, value: seq<byte>, inValue: bool)

  datatype Head = Head(fields: nat, bytes: nat, status: Option<nat>, headers: seq<Field>, current: Option<Current>)

  const STATUS: seq<byte> := [58, 115, 116, 97, 116, 117, 115]

  predicate Forbidden(name: seq<byte>) {
    name in {
    [99, 111, 110, 110, 101, 99, 116, 105, 111, 110],
    [112, 114, 111, 120, 121, 45, 99, 111, 110, 110, 101, 99, 116, 105, 111, 110],
    [107, 101, 101, 112, 45, 97, 108, 105, 118, 101],
    [116, 114, 97, 110, 115, 102, 101, 114, 45, 101, 110, 99, 111, 100, 105, 110, 103],
    [116, 101],
    [117, 112, 103, 114, 97, 100, 101],
    [116, 114, 97, 105, 108, 101, 114],
    [97, 108, 116, 45, 115, 118, 99]}
  }

  predicate NameOctetOk(octet: byte, first: bool) {
    97 <= octet <= 122 || Digit(octet) || TokenMark(octet) || (octet == COLON && first)
  }

  predicate ValueOctetOk(octet: byte, first: bool) {
    octet != 0 && octet != 13 && octet != 10 && !(first && Blank(octet))
  }

  /** A three-digit status of a final, non-redirecting response. */
  function StatusOf(value: seq<byte>): Option<nat> {
    if |value| != 3 || !Digit(value[0]) || !Digit(value[1]) || !Digit(value[2]) then None
    else
      var status: int := 10 * (10 * (value[0] as int - 48) + (value[1] as int - 48)) + (value[2] as int - 48);
      if FinalStatus(status) then Some(status) else None
  }

  predicate FinalStatus(status: int) { 200 <= status < 600 && !(300 <= status < 400) }

  // ----- one event at a time

  function Charged(b: Bounds, h: Head, bytes: nat): Option<Head> {
    if h.bytes + bytes <= b.headBytes then Some(h.(bytes := h.bytes + bytes)) else None
  }

  function Step(b: Bounds, h: Head, event: Event): Option<Head> {
    match event
    case BeginField =>
      if h.current.Some? || h.fields >= b.fieldCount then None
      else (match Charged(b, h, 4) case None => None case Some(next) =>
        Some(next.(fields := h.fields + 1, current := Some(Current([], [], false)))))
    case NameOctet(octet) => (
      match h.current
      case None => None
      case Some(c) =>
        if c.inValue || !NameOctetOk(octet, c.name == []) || |c.name| >= b.fieldBytes then None
        else match Charged(b, h, 1) case None => None case Some(next) =>
          Some(next.(current := Some(c.(name := c.name + [octet])))))
    case BeginValue => (
      match h.current
      case None => None
      case Some(c) =>
        if c.inValue || c.name == [] then None
        else if c.name[0] == COLON && (c.name != STATUS || h.status.Some? || h.fields != 1) then None
        else if c.name[0] != COLON && h.status.None? then None
        else Some(h.(current := Some(c.(inValue := true)))))
    case ValueOctet(octet) => (
      match h.current
      case None => None
      case Some(c) =>
        if !c.inValue || !ValueOctetOk(octet, c.value == []) || |c.name| + |c.value| >= b.fieldBytes then None
        else match Charged(b, h, 1) case None => None case Some(next) =>
          Some(next.(current := Some(c.(value := c.value + [octet])))))
    case EndField =>
      match h.current
      case None => None
      case Some(c) => Committed(b, h.(current := None), c)
  }

  function Committed(b: Bounds, h: Head, c: Current): Option<Head> {
    if !c.inValue || (c.value != [] && Blank(c.value[|c.value| - 1])) then None
    else if c.name == STATUS then
      match StatusOf(c.value) case None => None case Some(status) => Some(h.(status := Some(status)))
    else if Forbidden(c.name) || !b.nameText(c.name) || !b.valueText(c.value) then None
    else Some(h.(headers := h.headers + [Field(c.name, c.value)]))
  }

  const START: Head := Head(0, 0, None, [], None)

  function Fed(b: Bounds, log: Log): Option<Head> {
    if log == [] then Some(START)
    else match Fed(b, log[..|log| - 1]) case None => None case Some(h) => Step(b, h, log[|log| - 1])
  }

  /** The reader as a sink: what it was told last was taken. */
  function AsPolicy(b: Bounds): Policy {
    (log: Log) => Fed(b, log).Some?
  }

  /** A finished head: its status and its other fields. */
  function HeadIn(b: Bounds, h: Head): Option<(nat, seq<Field>)> {
    if h.current.Some? || h.bytes + 2 > b.headBytes || h.status.None? then None else Some((h.status.value, h.headers))
  }

  /** The head a whole log makes, if it may end there. */
  function HeadTold(b: Bounds, log: Log): Option<(nat, seq<Field>)> {
    match Fed(b, log) case None => None case Some(h) => HeadIn(b, h)
  }

  function AsEnd(b: Bounds): Policy {
    (log: Log) => HeadTold(b, log).Some?
  }

  // ----- what a lawful head is, field by field

  function StatusValue(status: nat): (value: seq<byte>)
    requires FinalStatus(status)
  {
    [48 + status / 10 / 10, 48 + status / 10 % 10, 48 + status % 10]
  }

  predicate TextOk(name: seq<byte>, value: seq<byte>) {
    && (forall i :: 0 <= i < |name| ==> NameOctetOk(name[i], i == 0))
    && (forall i :: 0 <= i < |value| ==> ValueOctetOk(value[i], i == 0))
  }

  /** An ordinary field that may stand in a response head. */
  predicate LawfulField(b: Bounds, f: Field) {
    && f.name != [] && f.name[0] != COLON && TextOk(f.name, f.value)
    && |f.name| + |f.value| <= b.fieldBytes
    && (f.value != [] ==> !Blank(f.value[|f.value| - 1]))
    && !Forbidden(f.name) && b.nameText(f.name) && b.valueText(f.value)
  }

  function TotalBytes(fields: seq<Field>): nat {
    if fields == [] then 0
    else TotalBytes(fields[..|fields| - 1]) + 4 + |fields[|fields| - 1].name| + |fields[|fields| - 1].value|
  }

  /** Exactly the heads the reader lets through. */
  predicate Lawful(b: Bounds, status: nat, headers: seq<Field>) {
    && FinalStatus(status) && 10 <= b.fieldBytes
    && 1 + |headers| <= b.fieldCount
    && (forall i :: 0 <= i < |headers| ==> LawfulField(b, headers[i]))
    && 14 + TotalBytes(headers) + 2 <= b.headBytes
  }

  function AllOf(status: nat, headers: seq<Field>): seq<Field>
    requires FinalStatus(status)
  {
    [Field(STATUS, StatusValue(status))] + headers
  }

  /** The names and numbers above, as they are written. */
  lemma AsWritten(name: seq<byte>, octet: byte, status: nat)
    ensures STATUS == Octets(":status")
    ensures Forbidden(name) <==>
              || name == Octets("connection") || name == Octets("proxy-connection") || name == Octets("keep-alive")
              || name == Octets("transfer-encoding") || name == Octets("te") || name == Octets("upgrade")
              || name == Octets("trailer") || name == Octets("alt-svc")
    ensures FinalStatus(status) <==> 200 <= status <= 299 || 400 <= status <= 599
    ensures FinalStatus(status) ==> StatusValue(status) == Decimal(status)
  {
    ForbiddenNames(name);
    if FinalStatus(status) {
      assert Decimal(status) == Decimal(status / 10) + [48 + status % 10];
      assert Decimal(status / 10) == Decimal(status / 10 / 10) + [48 + status / 10 % 10];
    }
  }

  /** Names are lower-case tokens, with a colon only in front; values start with no blank and hold no NUL, CR or LF. */
  lemma OctetClasses(b: byte, first: bool)
    ensures NameOctetOk(b, first) <==>
              97 <= b <= 122 || 48 <= b <= 57 || b in Octets("!#$%&'*+-.^_`|~") || (first && b == Octets(":")[0])
    ensures ValueOctetOk(b, first) <==>
              b != 0 && b != 10 && b != 13 && !(first && (b == 32 || b == 9))
  {
    hide Octets, TokenMark;
    Characters(b);
    assert Octets(":") == [COLON] by { OneColon(); }
  }

  lemma OneColon()
    ensures Octets(":") == [COLON]
  {
  }

  lemma ForbiddenNames(name: seq<byte>)
    ensures Forbidden(name) <==>
              || name == Octets("connection") || name == Octets("proxy-connection") || name == Octets("keep-alive")
              || name == Octets("transfer-encoding") || name == Octets("te") || name == Octets("upgrade")
              || name == Octets("trailer") || name == Octets("alt-svc")
  {
    hide Octets;
    LongNames();
    LongerNames();
    ShortNames();
  }

  lemma LongNames()
    ensures Octets("connection") == [99, 111, 110, 110, 101, 99, 116, 105, 111, 110]
    ensures Octets("keep-alive") == [107, 101, 101, 112, 45, 97, 108, 105, 118, 101]
  {
  }

  lemma LongerNames()
    ensures Octets("proxy-connection") ==
            [112, 114, 111, 120, 121, 45, 99, 111, 110, 110, 101, 99, 116, 105, 111, 110]
    ensures Octets("transfer-encoding") ==
            [116, 114, 97, 110, 115, 102, 101, 114, 45, 101, 110, 99, 111, 100, 105, 110, 103]
  {
  }

  lemma ShortNames()
    ensures Octets("te") == [116, 101] && Octets("upgrade") == [117, 112, 103, 114, 97, 100, 101]
    ensures Octets("trailer") == [116, 114, 97, 105, 108, 101, 114]
    ensures Octets("alt-svc") == [97, 108, 116, 45, 115, 118, 99]
  {
  }

  // ----- soundness: what was told is what is stored

  function PartialEvents(c: Option<Current>): seq<Event> {
    match c
    case None => []
    case Some(c) =>
      [BeginField] + TextEvents(c.name, true) + (if c.inValue then [BeginValue] + TextEvents(c.value, false) else [])
  }

  /** The fields stored so far, the status among them. */
  function Stored(h: Head): seq<Field>
    requires h.status.Some? ==> FinalStatus(h.status.value)
  {
    if h.status.Some? then AllOf(h.status.value, h.headers) else []
  }

  function Weight(c: Option<Current>): nat {
    match c case None => 0 case Some(c) => 4 + |c.name| + |c.value|
  }

  /** The reader's state against everything it was told. */
  predicate Sound(b: Bounds, h: Head, log: Log) {
    && (h.status.Some? ==> FinalStatus(h.status.value) && 10 <= b.fieldBytes)
    && (h.status.None? ==> h.headers == [])
    && log == AllEvents(Stored(h)) + PartialEvents(h.current)
    && (forall i :: 0 <= i < |h.headers| ==> LawfulField(b, h.headers[i]))
    && h.fields == |Stored(h)| + (if h.current.Some? then 1 else 0) && h.fields <= b.fieldCount
    && h.bytes == (if h.status.Some? then 14 else 0) + TotalBytes(h.headers) + Weight(h.current)
        && h.bytes <= b.headBytes
    && (h.current.Some? ==> CurrentOk(b, h, h.current.value))
  }

  predicate CurrentOk(b: Bounds, h: Head, c: Current) {
    && TextOk(c.name, c.value) && |c.name| + |c.value| <= b.fieldBytes
    && (!c.inValue ==> c.value == [])
    && (c.inValue ==>
          c.name != [] && (if c.name[0] == COLON then c.name == STATUS && h.status.None? else h.status.Some?))
  }

  lemma StatusRound(value: seq<byte>)
    requires StatusOf(value).Some?
    ensures StatusValue(StatusOf(value).value) == value
  {
  }

  lemma StatusTaken(status: nat)
    requires FinalStatus(status)
    ensures StatusOf(StatusValue(status)) == Some(status)
  {
  }

  lemma {:induction false} AllEventsSnoc(fields: seq<Field>, f: Field)
    ensures AllEvents(fields + [f]) == AllEvents(fields) + FieldEvents(f)
    decreases |fields|
  {
    hide FieldEvents;
    if fields == [] {
      assert fields + [f] == [f] && [f][1..] == [];
      assert AllEvents([f]) == FieldEvents(f) + AllEvents([f][1..]);
    } else {
      assert (fields + [f])[1..] == fields[1..] + [f];
      AllEventsSnoc(fields[1..], f);
    }
  }

  lemma SoundBegin(b: Bounds, h: Head, log: Log, event: Event)
    requires Sound(b, h, log) && Step(b, h, event).Some? && (event == BeginField || event == BeginValue)
    ensures Sound(b, Step(b, h, event).value, log + [event])
  {
    hide LawfulField, Forbidden, TokenMark, AllEvents, NameOctetOk, ValueOctetOk;
    var next := Step(b, h, event).value;
    assert Stored(next) == Stored(h);
    assert PartialEvents(next.current) == PartialEvents(h.current) + [event];
  }

  /** One octet more of a name or a value. */
  lemma PartialMore(c: Current, octet: byte)
    ensures !c.inValue && c.value == [] ==>
              PartialEvents(Some(c.(name := c.name + [octet]))) == PartialEvents(Some(c)) + [NameOctet(octet)]
    ensures c.inValue ==>
              PartialEvents(Some(c.(value := c.value + [octet]))) == PartialEvents(Some(c)) + [ValueOctet(octet)]
  {
    TextEventsAppend(c.name, [octet], true);
    TextEventsAppend(c.value, [octet], false);
    assert TextEvents([octet], true) == [NameOctet(octet)] && TextEvents([octet], false) == [ValueOctet(octet)];
  }

  lemma SoundOctet(b: Bounds, h: Head, log: Log, event: Event)
    requires Sound(b, h, log) && Step(b, h, event).Some? && (event.NameOctet? || event.ValueOctet?)
    ensures Sound(b, Step(b, h, event).value, log + [event])
  {
    hide LawfulField, Forbidden, TokenMark, AllEvents, NameOctetOk, ValueOctetOk, PartialEvents;
    var next := Step(b, h, event).value;
    assert Stored(next) == Stored(h);
    PartialMore(h.current.value, event.octet);
    assert log + [event] == AllEvents(Stored(h)) + (PartialEvents(h.current) + [event]);
  }

  lemma SoundEnd(b: Bounds, h: Head, log: Log)
    requires Sound(b, h, log) && Step(b, h, EndField).Some?
    ensures Sound(b, Step(b, h, EndField).value, log + [EndField])
  {
    hide Forbidden, TokenMark, AllEvents, NameOctetOk, ValueOctetOk;
    var next, c := Step(b, h, EndField).value, h.current.value;
    var f := Field(c.name, c.value);
    assert FieldEvents(f) == PartialEvents(h.current) + [EndField];
    AllEventsSnoc(Stored(h), f);
    if c.name == STATUS {
      StatusRound(c.value);
      assert Stored(next) == Stored(h) + [f];
    } else {
      assert Stored(next) == Stored(h) + [f];
      assert next.headers[..|h.headers|] == h.headers;
    }
  }

  lemma {:induction false} FedSound(b: Bounds, log: Log)
    requires Fed(b, log).Some?
    ensures Sound(b, Fed(b, log).value, log)
  {
    hide Sound, Step;
    if log == [] {
      StartSound(b, log);
    } else {
      var before, event := log[..|log| - 1], log[|log| - 1];
      FedSound(b, before);
      assert log == before + [event];
      if event == EndField {
        SoundEnd(b, Fed(b, before).value, before);
      } else if event == BeginField || event == BeginValue {
        SoundBegin(b, Fed(b, before).value, before, event);
      } else {
        SoundOctet(b, Fed(b, before).value, before, event);
      }
    }
  }

  lemma StartSound(b: Bounds, log: Log)
    requires log == []
    ensures Sound(b, START, log)
  {
  }

  // ----- completeness: every lawful head is taken

  /** A state inside a field, ahead of a state between fields. */
  function Inside(h: Head, name: seq<byte>, value: seq<byte>, inValue: bool): Head {
    h.(fields := h.fields + 1, bytes := h.bytes + 4 + |name| + |value|, current := Some(Current(name, value, inValue)))
  }

  predicate Room(b: Bounds, h: Head, name: seq<byte>, value: seq<byte>) {
    && h.current.None? && h.fields < b.fieldCount && |name| + |value| <= b.fieldBytes
    && h.bytes + 4 + |name| + |value| <= b.headBytes
    && TextOk(name, value)
  }

  lemma FedSnoc(b: Bounds, log: Log, event: Event)
    ensures Fed(b, log + [event]) == match Fed(b, log) case None => None case Some(h) => Step(b, h, event)
  {
    assert (log + [event])[..|log|] == log;
  }

  lemma {:induction false} NameTaken(b: Bounds, log: Log, h: Head, name: seq<byte>)
    requires Fed(b, log) == Some(h) && Room(b, h, name, [])
    ensures Fed(b, log + ([BeginField] + TextEvents(name, true))) == Some(Inside(h, name, [], false))
    decreases |name|
  {
    hide NameOctetOk, ValueOctetOk, Fed;
    if name == [] {
      FedSnoc(b, log, BeginField);
      assert [BeginField] + TextEvents(name, true) == [BeginField];
    } else {
      var before, octet := name[..|name| - 1], name[|name| - 1];
      assert name == before + [octet];
      NameTaken(b, log, h, before);
      var told := log + ([BeginField] + TextEvents(before, true));
      TextEventsAppend(before, [octet], true);
      assert TextEvents([octet], true) == [NameOctet(octet)];
      assert log + ([BeginField] + TextEvents(name, true)) == told + [NameOctet(octet)];
      FedSnoc(b, told, NameOctet(octet));
    }
  }

  lemma {:induction false} ValueTaken(b: Bounds, log: Log, h: Head, name: seq<byte>, value: seq<byte>)
    requires Room(b, h, name, value) && Fed(b, log) == Some(Inside(h, name, [], true))
    ensures Fed(b, log + TextEvents(value, false)) == Some(Inside(h, name, value, true))
    decreases |value|
  {
    hide NameOctetOk, ValueOctetOk, Fed;
    if value == [] {
      assert log + TextEvents(value, false) == log;
    } else {
      var before, octet := value[..|value| - 1], value[|value| - 1];
      assert value == before + [octet];
      ValueTaken(b, log, h, name, before);
      TextEventsAppend(before, [octet], false);
      assert TextEvents([octet], false) == [ValueOctet(octet)];
      assert log + TextEvents(value, false) == log + TextEvents(before, false) + [ValueOctet(octet)];
      FedSnoc(b, log + TextEvents(before, false), ValueOctet(octet));
    }
  }

  /** A field that fits is taken whole, up to its commit. */
  lemma FieldTaken(b: Bounds, log: Log, h: Head, f: Field)
    requires Fed(b, log) == Some(h) && Room(b, h, f.name, f.value) && f.name != []
    requires if f.name[0] == COLON then f.name == STATUS && h.status.None? && h.fields == 0 else h.status.Some?
    ensures Fed(b, log + FieldEvents(f)) ==
              Committed(b, Inside(h, f.name, f.value, true).(current := None), Current(f.name, f.value, true))
  {
    hide Fed, Committed, NameOctetOk, ValueOctetOk;
    NameTaken(b, log, h, f.name);
    var named := log + ([BeginField] + TextEvents(f.name, true));
    FedSnoc(b, named, BeginValue);
    ValueTaken(b, named + [BeginValue], h, f.name, f.value);
    FedSnoc(b, named + [BeginValue] + TextEvents(f.value, false), EndField);
    assert log + FieldEvents(f) == named + [BeginValue] + TextEvents(f.value, false) + [EndField];
  }

  function Done(status: nat, headers: seq<Field>): Head {
    Head(1 + |headers|, 14 + TotalBytes(headers), Some(status), headers, None)
  }

  lemma StatusFieldTaken(b: Bounds, status: nat)
    requires FinalStatus(status) && 10 <= b.fieldBytes && 1 <= b.fieldCount && 14 <= b.headBytes
    ensures Fed(b, AllEvents(AllOf(status, []))) == Some(Done(status, []))
  {
    var f := Field(STATUS, StatusValue(status));
    StatusTaken(status);
    assert Fed(b, []) == Some(START);
    FieldTaken(b, [], START, f);
    AllEventsSnoc([], f);
    assert AllOf(status, []) == [] + [f];
    assert [] + FieldEvents(f) == FieldEvents(f) && AllEvents([]) + FieldEvents(f) == FieldEvents(f);
  }

  lemma {:induction false} LawfulTaken(b: Bounds, status: nat, headers: seq<Field>)
    requires Lawful(b, status, headers)
    ensures Fed(b, AllEvents(AllOf(status, headers))) == Some(Done(status, headers))
    decreases |headers|
  {
    hide Fed, AllEvents, FieldEvents, StatusValue;
    if headers == [] {
      StatusFieldTaken(b, status);
    } else {
      var before, f := headers[..|headers| - 1], headers[|headers| - 1];
      assert headers == before + [f] && LawfulField(b, f);
      LawfulTaken(b, status, before);
      AllEventsSnoc(AllOf(status, before), f);
      assert AllOf(status, headers) == AllOf(status, before) + [f];
      FieldTaken(b, AllEvents(AllOf(status, before)), Done(status, before), f);
    }
  }

  /**
   * The reader finishes with a status and fields exactly when it was told just those, in that order, and
   * they are a lawful head: one final `:status` first and alone, every other field ordinary, every bound kept.
   */
  lemma FinishedIff(b: Bounds, log: Log, status: nat, headers: seq<Field>)
    ensures HeadTold(b, log) == Some((status, headers)) <==>
              Lawful(b, status, headers) && log == AllEvents(AllOf(status, headers))
  {
    hide LawfulField, AllEvents, Fed;
    if HeadTold(b, log) == Some((status, headers)) {
      FedSound(b, log);
    }
    if Lawful(b, status, headers) && log == AllEvents(AllOf(status, headers)) {
      LawfulTaken(b, status, headers);
    }
  }

  // ----- the reader in place

  class DecodedHeadReader {
    const bounds: Bounds
    var fields: nat
    var bytes: nat
    var status: Option<nat>
    var headers: seq<Field>
    var current: Option<Current>
    var poisoned: bool

    /** No partially collected head is visible behind a refusal. */
    ghost function View(): Option<Head> reads this {
      if poisoned then None else Some(Head(fields, bytes, status, headers, current))
    }

    ghost function Next(event: Event): Option<Head> reads this {
      match View() case None => None case Some(h) => Step(bounds, h, event)
    }

    constructor (bounds: Bounds)
      ensures this.bounds == bounds && View() == Some(START)
    {
      this.bounds := bounds;
      fields, bytes, status, headers, current, poisoned := 0, 0, None, [], None, false;
    }

    method Charge(n: nat) returns (ok: bool)
      modifies this`bytes
      ensures ok == (old(bytes) + n <= bounds.headBytes) && bytes == if ok then old(bytes) + n else old(bytes)
    {
      ok := bytes + n <= bounds.headBytes;
      if ok { bytes := bytes + n; }
    }

    method BeginField() returns (ok: bool)
      modifies this
      ensures View() == old(Next(HpackSink.BeginField)) && ok == View().Some?
    {
      if poisoned { return false; }
      poisoned := true;
      if current.Some? || fields >= bounds.fieldCount { return false; }
      ok := Charge(4);
      if !ok { return; }
      fields, current := fields + 1, Some(Current([], [], false));
      poisoned := false;
    }

    method NameByte(octet: byte) returns (ok: bool)
      modifies this
      ensures View() == old(Next(NameOctet(octet))) && ok == View().Some?
    {
      if poisoned { return false; }
      poisoned := true;
      if current.None? { return false; }
      var c := current.value;
      if c.inValue || !NameOctetOk(octet, c.name == []) { return false; }
      if |c.name| >= bounds.fieldBytes { return false; }
      ok := Charge(1);
      if !ok { return; }
      current := Some(c.(name := c.name + [octet]));
      poisoned := false;
    }

    method BeginValue() returns (ok: bool)
      modifies this
      ensures View() == old(Next(HpackSink.BeginValue)) && ok == View().Some?
    {
      if poisoned { return false; }
      poisoned := true;
      if current.None? || current.value.inValue || current.value.name == [] { return false; }
      var c := current.value;
      if c.name[0] == COLON {
        if c.name != STATUS || status.Some? || fields != 1 { return false; }
      } else if status.None? {
        return false;
      }
      current := Some(c.(inValue := true));
      poisoned, ok := false, true;
    }

    method ValueByte(octet: byte) returns (ok: bool)
      modifies this
      ensures View() == old(Next(ValueOctet(octet))) && ok == View().Some?
    {
      if poisoned { return false; }
      poisoned := true;
      if current.None? { return false; }
      var c := current.value;
      if !c.inValue || !ValueOctetOk(octet, c.value == []) { return false; }
      if |c.name| + |c.value| >= bounds.fieldBytes { return false; }
      ok := Charge(1);
      if !ok { return; }
      current := Some(c.(value := c.value + [octet]));
      poisoned := false;
    }

    method EndField() returns (ok: bool)
      modifies this
      ensures View() == old(Next(HpackSink.EndField)) && ok == View().Some?
    {
      if poisoned { return false; }
      poisoned := true;
      if current.None? { return false; }
      var c := current.value;
      current := None;
      if !c.inValue || (c.value != [] && Blank(c.value[|c.value| - 1])) { return false; }
      if c.name == STATUS {
        var code := StatusOf(c.value);
        if code.None? { return false; }
        status := code;
      } else {
        if Forbidden(c.name) || !bounds.nameText(c.name) || !bounds.valueText(c.value) { return false; }
        headers := headers + [Field(c.name, c.value)];
      }
      poisoned, ok := false, true;
    }

    method Finish() returns (head: Option<(nat, seq<Field>)>)
      ensures head == match View() case None => None case Some(h) => HeadIn(bounds, h)
    {
      if poisoned || current.Some? || bytes + 2 > bounds.headBytes || status.None? { return None; }
      head := Some((status.value, headers));
    }
  }
}
