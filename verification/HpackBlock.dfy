/**
 * Incremental decoding of one header block (section 6 of RFC 7541).
 *
 * `Codec.Step` is the octet-at-a-time machine.  `Codec.Decode` is the whole-block decoder it must
 * agree with: representations cut off the front one by one, each performed at once, with no budget,
 * no partial state and no bounded capture.
 */
module HpackBlock {
  import opened Bytes
  import opened HuffmanTree
  import opened HpackTable
  import opened HpackSink
  import Int = HpackInteger
  import Str = HpackString

  const MAXIMUM_INDEX: nat := 61 + MAXIMUM_DYNAMIC_TABLE_BYTES / 32

  datatype Purpose = Indexed | Named(indexing: bool) | Resizing

  datatype Phase =
    | Instruction
    | Index(partial: Int.Partial, purpose: Purpose)
    | NameStart(indexing: bool)
    | NameText(literal: Str.Literal, indexing: bool)
    | ValueStart(indexing: bool)
    | ValueText(literal: Str.Literal, indexing: bool)

  datatype Block = Block(phase: Phase, table: Table, log: Log, capture: Option<Field>,
                         seenField: bool, encoded: nat, maximum: nat)

  datatype Outcome = Ok(block: Block) | Refused(limit: bool)

  // ----- bounded capture of an indexed field

  function Append(f: Field, text: seq<byte>, name: bool): Field {
    if name then f.(name := f.name + text) else f.(value := f.value + text)
  }

  /** A field that can no longer fit the table is given up, not stored further. */
  function CaptureOctet(capture: Option<Field>, octet: byte, name: bool): Option<Field> {
    match capture
    case None => None
    case Some(f) => if Size(f) >= MAXIMUM_DYNAMIC_TABLE_BYTES then None else Some(Append(f, [octet], name))
  }

  function Capture(capture: Option<Field>, text: seq<byte>, name: bool): Option<Field>
    decreases |text|
  {
    if text == [] then capture else Capture(CaptureOctet(capture, text[0], name), text[1..], name)
  }

  lemma {:induction false} CaptureAppend(capture: Option<Field>, a: seq<byte>, b: seq<byte>, name: bool)
    ensures Capture(capture, a + b, name) == Capture(Capture(capture, a, name), b, name)
    decreases |a|
  {
    if a == [] {
      assert a + b == b;
    } else {
      assert (a + b)[0] == a[0] && (a + b)[1..] == a[1..] + b;
      CaptureAppend(CaptureOctet(capture, a[0], name), a[1..], b, name);
    }
  }

  lemma {:induction false} CaptureNone(text: seq<byte>, name: bool)
    ensures Capture(None, text, name) == None
  {
    if text != [] {
      CaptureNone(text[1..], name);
    }
  }

  /** The capture holds all of the text, or the text has outgrown the largest table. */
  lemma {:induction false} CaptureMeaning(f: Field, text: seq<byte>, name: bool)
    requires Size(f) <= MAXIMUM_DYNAMIC_TABLE_BYTES
    ensures Capture(Some(f), text, name) ==
            if Size(f) + |text| <= MAXIMUM_DYNAMIC_TABLE_BYTES then Some(Append(f, text, name)) else None
    decreases |text|
  {
    if text == [] {
      assert f.name + text == f.name && f.value + text == f.value;
    } else if Size(f) == MAXIMUM_DYNAMIC_TABLE_BYTES {
      CaptureNone(text[1..], name);
    } else {
      CaptureMeaning(Append(f, [text[0]], name), text[1..], name);
      assert [text[0]] + text[1..] == text;
      assert f.name + [text[0]] + text[1..] == f.name + text;
      assert f.value + [text[0]] + text[1..] == f.value + text;
    }
  }

  function Store(table: Table, capture: Option<Field>): Table {
    match capture case Some(f) => table.Inserted(f) case None => table.Cleared()
  }

  /** Bounded capture refines unbounded capture, at every table capacity. */
  lemma CaptureRefines(table: Table, name: seq<byte>, value: seq<byte>)
    requires table.Valid()
    ensures Store(table, Capture(Capture(Some(Field([], [])), name, true), value, false))
         == table.Inserted(Field(name, value))
  {
    CaptureMeaning(Field([], []), name, true);
    assert [] + name == name && [] + value == value;
    if |name| + 32 <= MAXIMUM_DYNAMIC_TABLE_BYTES {
      CaptureMeaning(Field(name, []), value, false);
    } else {
      CaptureNone(value, false);
    }
  }

  // ----- representations, as a grammar over whole inputs

  datatype NameRef = Known(index: nat) | New(text: seq<byte>)

  datatype Representation =
    | IndexedField(index: nat)
    | LiteralField(indexing: bool, name: NameRef, value: seq<byte>)
    | SizeUpdate(size: nat)

  /** The Huffman tree and static table in use, and what the sink takes. */
  datatype Codec = Codec(tree: Tree, statics: seq<Field>, policy: Policy) {

    // ----- the whole-block decoder

    /** A value behind a name that took n octets. */
    function ParseValue(indexing: bool, name: NameRef, n: nat, octets: seq<byte>): Option<(Representation, nat)> {
      if n > |octets| then None
      else match Str.Parse(tree, octets[n..])
        case None => None
        case Some((value, m)) => Some((LiteralField(indexing, name, value), n + m))
    }

    function ParseLiteral(indexing: bool, octets: seq<byte>): Option<(Representation, nat)> {
      match Int.Parse(octets, if indexing then 6 else 4)
      case None => None
      case Some((index, n)) =>
        if index != 0 then ParseValue(indexing, Known(index), n, octets) else ParseNewName(indexing, n, octets)
    }

    function ParseNewName(indexing: bool, n: nat, octets: seq<byte>): Option<(Representation, nat)> {
      if n > |octets| then None
      else match Str.Parse(tree, octets[n..])
        case None => None
        case Some((name, m)) => if name == [] then None else ParseValue(indexing, New(name), n + m, octets)
    }

    function ParseOne(octets: seq<byte>): Option<(Representation, nat)>
      requires octets != []
    {
      if octets[0] >= 128 then
        match Int.Parse(octets, 7) case None => None case Some((i, n)) => Some((IndexedField(i), n))
      else if octets[0] / 32 == 1 then
        match Int.Parse(octets, 5) case None => None case Some((size, n)) => Some((SizeUpdate(size), n))
      else ParseLiteral(octets[0] >= 64, octets)
    }

    /** What one representation does to table and sink, all at once. */
    function Perform(r: Representation, table: Table, log: Log, seenField: bool): Option<(Log, Table)> {
      match r
      case SizeUpdate(size) =>
        if seenField then None
        else (match table.Resized(size) case None => None case Some(next) => Some((log, next)))
      case IndexedField(index) => (
        match table.Lookup(statics, index)
        case None => None
        case Some(f) => Delivered(f, log, table))
      case LiteralField(indexing, name, value) =>
        match NameOf(name, table)
        case None => None
        case Some(text) =>
          Delivered(Field(text, value), log, if indexing then table.Inserted(Field(text, value)) else table)
    }

    function NameOf(name: NameRef, table: Table): Option<seq<byte>> {
      match name
      case New(text) => Some(text)
      case Known(index) => match table.Lookup(statics, index) case None => None case Some(f) => Some(f.name)
    }

    function Delivered(f: Field, log: Log, table: Table): Option<(Log, Table)> {
      match Offer(policy, log, FieldEvents(f)) case None => None case Some(next) => Some((next, table))
    }

    /** The simple decoder: parse a representation, perform it, go on. */
    function Decode(octets: seq<byte>, table: Table, log: Log, seenField: bool): Option<(Log, Table)>
      decreases |octets|
    {
      if octets == [] then Some((log, table))
      else match ParseOne(octets)
        case None => None
        case Some((r, n)) =>
          if !(0 < n <= |octets|) then None
          else match Perform(r, table, log, seenField)
            case None => None
            case Some((log', table')) => Decode(octets[n..], table', log', seenField || !r.SizeUpdate?)
    }

    // ----- the octet-at-a-time machine

    function Emit(b: Block, text: seq<byte>, name: bool): Outcome {
      match Offer(policy, b.log, TextEvents(text, name))
      case None => Refused(false)
      case Some(log) => Ok(b.(log := log, capture := Capture(b.capture, text, name)))
    }

    function Tell(b: Block, event: Event, phase: Phase): Outcome {
      match Offer(policy, b.log, [event])
      case None => Refused(false)
      case Some(log) => Ok(b.(log := log, phase := phase))
    }

    function EndField(b: Block, indexing: bool): Outcome {
      match Tell(b, HpackSink.EndField, Instruction)
      case Refused(limit) => Refused(limit)
      case Ok(next) =>
        if indexing then Ok(next.(table := Store(next.table, next.capture), capture := None)) else Ok(next)
    }

    function OnInteger(b: Block, value: nat, purpose: Purpose): Outcome {
      match purpose
      case Resizing => (
        match b.table.Resized(value)
        case None => Refused(false)
        case Some(table) => Ok(b.(table := table, phase := Instruction)))
      case Indexed => (
        match b.table.Lookup(statics, value)
        case None => Refused(false)
        case Some(f) =>
          match Offer(policy, b.log, FieldEvents(f))
          case None => Refused(false)
          case Some(log) => Ok(b.(log := log, phase := Instruction)))
      case Named(indexing) =>
        match Tell(b, BeginField, NameStart(indexing))
        case Refused(limit) => Refused(limit)
        case Ok(next) =>
          var begun := next.(capture := if indexing then Some(Field([], [])) else None);
          if value == 0 then Ok(begun)
          else match b.table.Lookup(statics, value)
            case None => Refused(false)
            case Some(f) => AfterName(Emit(begun, f.name, true), indexing)
    }

    function AfterName(o: Outcome, indexing: bool): Outcome {
      match o case Refused(limit) => o case Ok(b) => Tell(b, BeginValue, ValueStart(indexing))
    }

    function AfterValue(o: Outcome, indexing: bool): Outcome {
      match o case Refused(limit) => o case Ok(b) => EndField(b, indexing)
    }

    /** A declared length must still fit the encoded budget once it is known. */
    function WithinBudget(b: Block, literal: Str.Literal): bool {
      literal.Payload? ==> literal.remaining + b.encoded <= b.maximum
    }

    /** What the octets a string step made known do to the block. */
    function Text(b: Block, step: Str.Step, name: bool, indexing: bool): Outcome {
      match step
      case Refused(limit) => Refused(limit)
      case Complete(out) =>
        if name then AfterName(Emit(b, out, true), indexing) else AfterValue(Emit(b, out, false), indexing)
      case Going(literal, out) =>
        match Emit(b, out, name)
        case Refused(limit) => Refused(limit)
        case Ok(next) =>
          if !WithinBudget(next, literal) then Refused(true)
          else Ok(next.(phase := if name then NameText(literal, indexing) else ValueText(literal, indexing)))
    }

    function Integer(b: Block, progress: Int.Progress, purpose: Purpose): Outcome {
      match progress
      case Refused(_) => Refused(false)
      case Done(value) => OnInteger(b, value, purpose)
      case More(p) => Ok(b.(phase := Index(p, purpose)))
    }

    function Begin(b: Block, octet: byte): Outcome {
      if octet >= 128 then
        Integer(b.(seenField := true), Int.Start(octet, 7, MAXIMUM_INDEX), Indexed)
      else if octet / 32 == 1 then
        if b.seenField then Refused(false)
        else Integer(b, Int.Start(octet, 5, MAXIMUM_DYNAMIC_TABLE_BYTES), Resizing)
      else
        var indexing := octet >= 64;
        Integer(b.(seenField := true), Int.Start(octet, if indexing then 6 else 4, MAXIMUM_INDEX), Named(indexing))
    }

    /** The phase is taken out of the block before the step that replaces it. */
    function Step(before: Block, octet: byte): Outcome {
      if before.encoded + 1 > before.maximum then Refused(true)
      else Next(before.(encoded := before.encoded + 1, phase := Instruction), before.phase, octet)
    }

    function Next(b: Block, phase: Phase, octet: byte): Outcome
      requires b.encoded <= b.maximum
    {
      match phase
      case Instruction => Begin(b, octet)
      case Index(p, purpose) => Integer(b, Int.Next(p, octet), purpose)
      case NameStart(indexing) => Open(b, octet, true, indexing)
      case ValueStart(indexing) => Open(b, octet, false, indexing)
      case NameText(literal, indexing) => Text(b, Str.Next(tree, literal, octet), true, indexing)
      case ValueText(literal, indexing) => Text(b, Str.Next(tree, literal, octet), false, indexing)
    }

    /** The first octet of a string; an empty name is refused, an empty value ends its field. */
    function Open(b: Block, octet: byte, name: bool, indexing: bool): Outcome
      requires b.encoded <= b.maximum
    {
      match Str.Start(octet, b.maximum - b.encoded)
      case Refused(_) => Refused(true)
      case Complete(_) => if name then Refused(false) else EndField(b, indexing)
      case Going(literal, _) =>
        Ok(b.(phase := if name then NameText(literal, indexing) else ValueText(literal, indexing)))
    }

    function Run(o: Outcome, octets: seq<byte>): Outcome
      decreases |octets|
    {
      if octets == [] then o
      else match o
        case Refused(_) => o
        case Ok(b) => Run(Step(b, octets[0]), octets[1..])
    }
  }

  function Fresh(table: Table, maximum: nat): Block {
    Block(Instruction, table, [], None, false, 0, maximum)
  }

  /** Only a block that ends between representations can be finished. */
  function Finished(o: Outcome): Option<(Log, Table)> {
    if o.Ok? && o.block.phase == Instruction then Some((o.block.log, o.block.table)) else None
  }
}
