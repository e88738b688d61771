/** The octet-at-a-time block machine decodes exactly what the whole-block decoder decodes. */
module HpackRefinement {
  import opened Bytes
  import opened HuffmanTree
  import opened HpackTable
  import opened HpackSink
  import opened HpackBlock
  import Int = HpackInteger
  import Str = HpackString
  import Huff = HpackHuffman

  /** What finishing after these octets yields. */
  function Final(c: Codec, o: Outcome, octets: seq<byte>): Option<(Log, Table)> {
    Finished(c.Run(o, octets))
  }

  function At(b: Block, n: nat): Block {
    b.(encoded := b.encoded + n, phase := Instruction)
  }

  predicate Room(b: Block, octets: seq<byte>) {
    b.encoded + |octets| <= b.maximum <= U64_MAX
  }

  lemma RunRefused(c: Codec, limit: bool, octets: seq<byte>)
    ensures c.Run(Refused(limit), octets) == Refused(limit)
  {
  }

  lemma {:induction false} RunAppend(c: Codec, o: Outcome, x: seq<byte>, y: seq<byte>)
    ensures c.Run(o, x + y) == c.Run(c.Run(o, x), y)
    decreases |x|
  {
    if x == [] {
      assert x + y == y;
    } else {
      assert (x + y)[0] == x[0] && (x + y)[1..] == x[1..] + y;
      match o
      case Refused(_) =>
      case Ok(b) => RunAppend(c, c.Step(b, x[0]), x[1..], y);
    }
  }

  // ----- integers inside a block

  lemma {:induction false} RunIndex(c: Codec, b: Block, octets: seq<byte>)
    requires b.phase.Index? && Room(b, octets)
    ensures Final(c, Ok(b), octets) ==
            match Int.Read(b.phase.partial, octets)
            case None => None
            case Some((v, n)) =>
              if n <= |octets| then Final(c, c.OnInteger(At(b, n), v, b.phase.purpose), octets[n..]) else None
    decreases |octets|
  {
    if octets != [] {
      var b1 := At(b, 1);
      assert c.Step(b, octets[0]) == c.Integer(b1, Int.Next(b.phase.partial, octets[0]), b.phase.purpose);
      match Int.Next(b.phase.partial, octets[0])
      case Refused(_) => RunRefused(c, false, octets[1..]);
      case Done(v) =>
      case More(q) =>
        var next := b1.(phase := Index(q, b.phase.purpose));
        RunIndex(c, next, octets[1..]);
        if Int.Read(q, octets[1..]).Some? {
          var (v, n) := Int.Read(q, octets[1..]).value;
          assert At(next, n) == At(b, n + 1);
          if n <= |octets[1..]| { assert octets[1..][n..] == octets[n + 1..]; }
        }
    }
  }

  /** An integer that begins with the octet just counted. */
  lemma RunInteger(c: Codec, b: Block, octets: seq<byte>, prefix: nat, maximum: nat, purpose: Purpose)
    requires octets != [] && b.phase == Instruction && Room(b, octets[1..])
    ensures Final(c, c.Integer(b, Int.Start(octets[0], prefix, maximum), purpose), octets[1..]) ==
            match Int.ReadFrom(octets, prefix, maximum)
            case None => None
            case Some((v, n)) =>
              if 1 <= n <= |octets| then Final(c, c.OnInteger(At(b, n - 1), v, purpose), octets[n..]) else None
  {
    hide Codec.Step, Codec.OnInteger;
    match Int.Start(octets[0], prefix, maximum)
    case Refused(_) =>
    case Done(v) => assert At(b, 0) == b;
    case More(p) =>
      var next := b.(phase := Index(p, purpose));
      RunIndex(c, next, octets[1..]);
      if Int.Read(p, octets[1..]).Some? {
        var (v, n) := Int.Read(p, octets[1..]).value;
        assert At(next, n) == At(b, n);
        if n <= |octets[1..]| { assert octets[1..][n..] == octets[n + 1..]; }
      }
  }

  // ----- strings inside a block

  lemma EmitAppend(c: Codec, b: Block, e: nat, x: seq<byte>, y: seq<byte>, name: bool)
    ensures c.Emit(b.(encoded := e), x + y, name) ==
            match c.Emit(b, x, name)
            case Refused(_) => Refused(false)
            case Ok(next) => c.Emit(next.(encoded := e), y, name)
  {
    TextEventsAppend(x, y, name);
    OfferAppend(c.policy, b.log, TextEvents(x, name), TextEvents(y, name));
    CaptureAppend(b.capture, x, y, name);
  }

  lemma EmitEmpty(c: Codec, b: Block, name: bool)
    ensures c.Emit(b, [], name) == Ok(b)
  {
    assert TextEvents([], name) == [];
    assert b.log + [] == b.log;
  }

  function AfterText(c: Codec, o: Outcome, name: bool, indexing: bool): Outcome {
    if name then c.AfterName(o, indexing) else c.AfterValue(o, indexing)
  }

  function TextPhase(literal: Str.Literal, name: bool, indexing: bool): Phase {
    if name then NameText(literal, indexing) else ValueText(literal, indexing)
  }

  lemma TooShort(t: Tree, literal: Str.Literal, octets: seq<byte>)
    requires literal.Payload? && literal.remaining > |octets|
    ensures Str.Read(t, literal, octets).None?
  {
    match literal.coding
    case Raw => Str.ReadRaw(t, literal.remaining, octets);
    case Huffman(path) => Str.ReadHuffman(t, literal.remaining, path, octets);
  }

  /** What the rest of a string does: all of its text at once, then whatever follows it. */
  function TextFinal(c: Codec, b: Block, read: Option<(seq<byte>, nat)>, octets: seq<byte>, name: bool, indexing: bool)
    : Option<(Log, Table)>
  {
    match read
    case None => None
    case Some((text, n)) =>
      if n <= |octets| then Final(c, AfterText(c, c.Emit(At(b, n), text, name), name, indexing), octets[n..]) else None
  }

  lemma {:induction false} RunText(c: Codec, b: Block, octets: seq<byte>, literal: Str.Literal, name: bool,
                                   indexing: bool)
    requires b.phase == TextPhase(literal, name, indexing) && Room(b, octets)
    ensures Final(c, Ok(b), octets) == TextFinal(c, b, Str.Read(c.tree, literal, octets), octets, name, indexing)
    decreases |octets|, 0
  {
    hide Str.Next, Codec.Emit, Codec.EndField;
    if octets != [] {
      var b1, rest := At(b, 1), octets[1..];
      var step := Str.Next(c.tree, literal, octets[0]);
      assert c.Step(b, octets[0]) == c.Text(b1, step, name, indexing);
      assert Str.Read(c.tree, literal, octets) == Str.Resume(c.tree, step, rest);
      RunRefused(c, step.Refused? && step.limit, rest);
      if step.Going? {
        RunTextOn(c, b1, rest, step.literal, step.out, name, indexing);
        var read := Str.Read(c.tree, step.literal, rest);
        if read.Some? {
          var (text, n) := read.value;
          if n <= |rest| { assert rest[n..] == octets[n + 1..]; }
          assert At(b1, n) == At(b, n + 1);
        }
      }
    }
  }

  /** One step that leaves a string unfinished, and the rest of it. */
  lemma {:induction false} RunTextOn(c: Codec, b: Block, rest: seq<byte>, literal: Str.Literal, out: seq<byte>,
                                     name: bool, indexing: bool)
    requires b.phase == Instruction && Room(b, rest)
    ensures Final(c, c.Text(b, Str.Going(literal, out), name, indexing), rest) ==
            match Str.Read(c.tree, literal, rest)
            case None => None
            case Some((text, n)) =>
              if n <= |rest| then Final(c, AfterText(c, c.Emit(At(b, n), out + text, name), name, indexing), rest[n..])
              else None
    decreases |rest|, 1
  {
    hide Codec.Step, Str.Next, Offer;
    match c.Emit(b, out, name)
    case Refused(_) =>
      if Str.Read(c.tree, literal, rest).Some? {
        var (text, n) := Str.Read(c.tree, literal, rest).value;
        EmitAppend(c, b, b.encoded + n, out, text, name);
      }
    case Ok(next) =>
      if !c.WithinBudget(next, literal) {
        TooShort(c.tree, literal, rest);
      } else {
        var going := next.(phase := TextPhase(literal, name, indexing));
        RunText(c, going, rest, literal, name, indexing);
        if Str.Read(c.tree, literal, rest).Some? {
          var (text, n) := Str.Read(c.tree, literal, rest).value;
          EmitAppend(c, b, b.encoded + n, out, text, name);
          assert At(b, n) == b.(encoded := b.encoded + n);
          assert At(going, n) == next.(encoded := b.encoded + n);
        }
      }
  }

  /** A value literal, from its first octet on. */
  lemma RunValue(c: Codec, b: Block, octets: seq<byte>, indexing: bool)
    requires b.phase == ValueStart(indexing) && Room(b, octets)
    ensures Final(c, Ok(b), octets) == TextFinal(c, b, Str.Parse(c.tree, octets), octets, false, indexing)
  {
    hide Codec.Emit, Codec.EndField, Codec.Text, Codec.Integer, Codec.Begin, Codec.OnInteger;
    hide Int.Next, Int.Start, Str.Next, Offer;
    if octets != [] {
      var b1, rest := At(b, 1), octets[1..];
      var budget := b1.maximum - b1.encoded;
      Str.ReadIsParse(c.tree, octets, budget);
      match Str.Start(octets[0], budget)
      case Refused(_) => RunRefused(c, true, rest);
      case Complete(out) => EmitEmpty(c, b1, false);
      case Going(literal, out) => RunGoing(c, b, b1.(phase := ValueText(literal, indexing)), octets, literal, false,
          indexing);
    }
  }

  lemma RunGoing(c: Codec, b: Block, next: Block, octets: seq<byte>, literal: Str.Literal, name: bool, indexing: bool)
    requires octets != [] && Room(next, octets[1..])
    requires next == At(b, 1).(phase := TextPhase(literal, name, indexing))
    ensures Final(c, Ok(next), octets[1..]) ==
            TextFinal(c, b, Str.Resume(c.tree, Str.Going(literal, []), octets[1..]), octets, name, indexing)
  {
    hide Str.Next, Codec.Step, Codec.Run, Codec.Emit, Codec.EndField;
    var rest := octets[1..];
    RunText(c, next, rest, literal, name, indexing);
    var read := Str.Read(c.tree, literal, rest);
    if read.Some? {
      var (text, n) := read.value;
      assert [] + text == text;
      assert At(next, n) == At(b, n + 1);
      if n <= |rest| { assert rest[n..] == octets[n + 1..]; }
    }
  }

  /** A literal name is never empty: an empty one is refused at its first octet. */
  lemma NameNotEmpty(t: Tree, book: Codebook, octets: seq<byte>, maximum: nat)
    requires Huff.Huffman(t, book) && octets != [] && |octets| <= maximum + 1 && maximum <= U64_MAX
    requires Str.Parse(t, octets).Some?
    ensures Str.Parse(t, octets).value.0 == [] <==> Str.Start(octets[0], maximum).Complete?
  {
    var (length, n) := Int.Parse(octets, 7).value;
    Str.EmptyText(t, book, octets[n..n + length], octets[0] >= 128);
    Int.ParseUsed(octets, 7);
    assert Pow2(7) == 128;
    if length == 0 { assert octets[n..n] == []; assert Huff.Ones(0) == []; }
  }

  predicate EmptyName(b: Block, octets: seq<byte>) {
    octets != [] && b.encoded < b.maximum && Str.Start(octets[0], b.maximum - b.encoded - 1).Complete?
  }

  lemma RunName(c: Codec, b: Block, octets: seq<byte>, indexing: bool)
    requires b.phase == NameStart(indexing) && Room(b, octets)
    ensures Final(c, Ok(b), octets) ==
            if EmptyName(b, octets) then None
            else TextFinal(c, b, Str.Parse(c.tree, octets), octets, true, indexing)
  {
    hide Codec.Emit, Codec.EndField, Codec.Text, Codec.Integer, Codec.Begin, Codec.OnInteger;
    hide Int.Next, Int.Start, Str.Next, Offer;
    if octets != [] {
      var b1, rest := At(b, 1), octets[1..];
      var budget := b1.maximum - b1.encoded;
      Str.ReadIsParse(c.tree, octets, budget);
      match Str.Start(octets[0], budget)
      case Refused(_) => RunRefused(c, true, rest);
      case Complete(_) => RunRefused(c, false, rest);
      case Going(literal, out) => RunGoing(c, b, b1.(phase := NameText(literal, indexing)), octets, literal, true,
          indexing);
    }
  }

  // ----- whole representations

  /** Back between representations, with what was delivered. */
  function Back(b: Block, delivered: Option<(Log, Table)>): Outcome {
    match delivered
    case None => Refused(false)
    case Some((log, table)) => Ok(b.(phase := Instruction, log := log, table := table, capture := None))
  }

  function Delivery(c: Codec, name: seq<byte>, value: seq<byte>, indexing: bool, log: Log, table: Table)
    : Option<(Log, Table)>
  {
    c.Delivered(Field(name, value), log, if indexing then table.Inserted(Field(name, value)) else table)
  }

  function LiteralFinal(c: Codec, b: Block, octets: seq<byte>, name: seq<byte>, indexing: bool, log: Log, table: Table)
    : Option<(Log, Table)>
  {
    match Str.Parse(c.tree, octets)
    case None => None
    case Some((value, n)) =>
      if n > |octets| then None
      else Final(c, Back(At(b, n), Delivery(c, name, value, indexing, log, table)), octets[n..])
  }

  /** A block whose sink has been told a whole name. */
  predicate Told(c: Codec, b: Block, name: seq<byte>, indexing: bool, log: Log, table: Table) {
    && b.table == table && table.Valid()
    && b.log == log + NameEvents(name) && Takes(c.policy, log, NameEvents(name))
    && b.capture == if indexing then Capture(Some(Field([], [])), name, true) else None
  }

  function NameEvents(name: seq<byte>): seq<Event> {
    [BeginField] + TextEvents(name, true) + [BeginValue]
  }

  lemma ValueDelivered(c: Codec, b: Block, name: seq<byte>, value: seq<byte>, indexing: bool, log: Log, table: Table)
    requires b.phase == Instruction && Told(c, b, name, indexing, log, table)
    ensures c.AfterValue(c.Emit(b, value, false), indexing) == Back(b, Delivery(c, name, value, indexing, log, table))
  {
    var text := TextEvents(value, false);
    assert FieldEvents(Field(name, value)) == NameEvents(name) + (text + [HpackSink.EndField]);
    OfferAppend(c.policy, log, NameEvents(name), text + [HpackSink.EndField]);
    OfferAppend(c.policy, b.log, text, [HpackSink.EndField]);
    if indexing {
      CaptureRefines(table, name, value);
    } else {
      CaptureNone(value, false);
    }
  }

  /** The value of a literal field behind everything its name did. */
  lemma LiteralValue(c: Codec, b: Block, octets: seq<byte>, name: seq<byte>, indexing: bool, log: Log, table: Table)
    requires b.phase == ValueStart(indexing) && Room(b, octets) && Told(c, b, name, indexing, log, table)
    ensures Final(c, Ok(b), octets) == LiteralFinal(c, b, octets, name, indexing, log, table)
  {
    RunValue(c, b, octets, indexing);
    if Str.Parse(c.tree, octets).Some? {
      var (value, n) := Str.Parse(c.tree, octets).value;
      ValueDelivered(c, At(b, n), name, value, indexing, log, table);
    }
  }

  /** The name text told in one go, then the end of the name. */
  lemma NameTold(c: Codec, b: Block, name: seq<byte>, indexing: bool, log: Log)
    requires b.table.Valid() && b.log == log + [BeginField]
    requires Takes(c.policy, log, [BeginField])
    requires b.capture == if indexing then Some(Field([], [])) else None
    ensures match c.AfterName(c.Emit(b, name, true), indexing)
            case Refused(limit) => !limit && !Takes(c.policy, log, NameEvents(name))
            case Ok(next) =>
              && Told(c, next, name, indexing, log, b.table)
              && next.phase == ValueStart(indexing) && next.encoded == b.encoded && next.maximum == b.maximum
              && next.seenField == b.seenField
  {
    var text := TextEvents(name, true);
    assert NameEvents(name) == [BeginField] + (text + [BeginValue]);
    OfferAppend(c.policy, log, [BeginField], text + [BeginValue]);
    OfferAppend(c.policy, b.log, text, [BeginValue]);
    assert log + NameEvents(name) == b.log + text + [BeginValue];
    if !indexing { CaptureNone(name, true); }
  }

  lemma RefusedFinal(c: Codec, limit: bool, octets: seq<byte>)
    ensures Final(c, Refused(limit), octets) == None
  {
    RunRefused(c, limit, octets);
  }

  /** From a name told in one go to the end of its field. */
  lemma NameThenValue(c: Codec, b: Block, octets: seq<byte>, name: seq<byte>, indexing: bool, log: Log)
    requires Room(b, octets) && b.table.Valid()
    requires b.log == log + [BeginField] && Takes(c.policy, log, [BeginField])
    requires b.capture == if indexing then Some(Field([], [])) else None
    ensures Final(c, c.AfterName(c.Emit(b, name, true), indexing), octets)
         == ValueFinal(c, b, octets, name, indexing, log)
  {
    NameTold(c, b, name, indexing, log);
    var told := c.AfterName(c.Emit(b, name, true), indexing);
    if told.Ok? {
      LiteralValue(c, told.block, octets, name, indexing, log, b.table);
      SameFinal(c, told.block, b, octets, name, indexing, log);
    } else {
      RefusedFinal(c, false, octets);
    }
  }

  /** Only the budget and the field flag of the block matter once the name has been told. */
  lemma SameFinal(c: Codec, x: Block, y: Block, octets: seq<byte>, name: seq<byte>, indexing: bool, log: Log)
    requires x.encoded == y.encoded && x.maximum == y.maximum && x.seenField == y.seenField
    ensures LiteralFinal(c, x, octets, name, indexing, log, y.table)
         == LiteralFinal(c, y, octets, name, indexing, log, y.table)
  {
    if Str.Parse(c.tree, octets).Some? {
      var (value, n) := Str.Parse(c.tree, octets).value;
      var d := Delivery(c, name, value, indexing, log, y.table);
      assert Back(At(x, n), d) == Back(At(y, n), d);
    }
  }

  /** A literal field with a literal name, from the first octet of the name on. */
  lemma NewName(c: Codec, book: Codebook, b: Block, octets: seq<byte>, indexing: bool, log: Log)
    requires Huff.Huffman(c.tree, book) && b.phase == NameStart(indexing) && Room(b, octets)
    requires b.table.Valid() && b.log == log + [BeginField] && Takes(c.policy, log, [BeginField])
    requires b.capture == if indexing then Some(Field([], [])) else None
    ensures Final(c, Ok(b), octets) == NewNameFinal(c, b, Str.Parse(c.tree, octets), octets, indexing, log)
  {
    hide Codec.Run, Codec.Emit, Takes, Huff.Huffman;
    RunName(c, b, octets, indexing);
    var read := Str.Parse(c.tree, octets);
    if read.Some? {
      assert octets != [];
      NameNotEmpty(c.tree, book, octets, b.maximum - b.encoded - 1);
      if read.value.1 <= |octets| {
        NameThenValue(c, At(b, read.value.1), octets[read.value.1..], read.value.0, indexing, log);
      }
    }
  }

  function NewNameFinal(c: Codec, b: Block, read: Option<(seq<byte>, nat)>, octets: seq<byte>, indexing: bool, log: Log)
    : Option<(Log, Table)>
  {
    match read
    case None => None
    case Some((name, n)) =>
      if name == [] || n > |octets| then None else ValueFinal(c, At(b, n), octets[n..], name, indexing, log)
  }

  /** The value behind a name; nothing can be delivered when the sink refuses the name. */
  function ValueFinal(c: Codec, b: Block, octets: seq<byte>, name: seq<byte>, indexing: bool, log: Log)
    : Option<(Log, Table)>
  {
    if !Takes(c.policy, log, NameEvents(name)) then None
    else LiteralFinal(c, b, octets, name, indexing, log, b.table)
  }

  lemma NameRefused(c: Codec, name: seq<byte>, indexing: bool, log: Log, table: Table)
    requires !Takes(c.policy, log, NameEvents(name))
    ensures forall value :: Delivery(c, name, value, indexing, log, table).None?
  {
    forall value ensures Delivery(c, name, value, indexing, log, table).None? {
      var rest := TextEvents(value, false) + [HpackSink.EndField];
      assert FieldEvents(Field(name, value)) == NameEvents(name) + rest;
      TakesAppend(c.policy, log, NameEvents(name), rest);
    }
  }

  // ----- one representation at a time

  /** A block between representations. */
  predicate Between(c: Codec, b: Block) {
    b.phase == Instruction && b.capture == None && b.table.Valid() && |c.statics| == 61
  }

  /** Its budget and flag after a representation of n octets. */
  function After(b: Block, r: Representation, n: nat): Block {
    At(b, n).(seenField := b.seenField || !r.SizeUpdate?)
  }

  function RepFinal(c: Codec, b: Block, read: Option<(Representation, nat)>, octets: seq<byte>): Option<(Log, Table)> {
    match read
    case None => None
    case Some((r, n)) =>
      if n > |octets| then None
      else Final(c, Back(After(b, r, n), c.Perform(r, b.table, b.log, b.seenField)), octets[n..])
  }

  lemma SizeUpdateCase(c: Codec, b: Block, octets: seq<byte>)
    requires octets != [] && octets[0] / 32 == 1 && Between(c, b) && Room(b, octets)
    ensures Final(c, Ok(b), octets) == RepFinal(c, b, c.ParseOne(octets), octets)
  {
    hide Int.Start, Int.Read, Int.Next, Offer;
    var b1, rest := At(b, 1), octets[1..];
    Int.ReadIsParse(octets, 5, MAXIMUM_DYNAMIC_TABLE_BYTES);
    if Int.Parse(octets, 5).Some? { Int.ParseUsed(octets, 5); }
    if b.seenField {
      RunRefused(c, false, rest);
      if Int.Parse(octets, 5).Some? { RefusedFinal(c, false, octets[Int.Parse(octets, 5).value.1..]); }
    } else {
      RunInteger(c, b1, octets, 5, MAXIMUM_DYNAMIC_TABLE_BYTES, Resizing);
      if Int.Parse(octets, 5).Some? {
        var (v, n) := Int.Parse(octets, 5).value;
        RefusedFinal(c, false, octets[n..]);
        assert At(b1, n - 1) == After(b, SizeUpdate(v), n);
      }
    }
  }

  lemma IndexedCase(c: Codec, b: Block, octets: seq<byte>)
    requires octets != [] && octets[0] >= 128 && Between(c, b) && Room(b, octets)
    ensures Final(c, Ok(b), octets) == RepFinal(c, b, c.ParseOne(octets), octets)
  {
    hide Int.Start, Int.Read, Int.Next, Offer;
    var b1 := At(b, 1).(seenField := true);
    Int.ReadIsParse(octets, 7, MAXIMUM_INDEX);
    RunInteger(c, b1, octets, 7, MAXIMUM_INDEX, Indexed);
    if Int.Parse(octets, 7).Some? {
      var (v, n) := Int.Parse(octets, 7).value;
      Int.ParseUsed(octets, 7);
      RefusedFinal(c, false, octets[n..]);
      if b.table.Lookup(c.statics, v).Some? { ValidIndexes(b.table, c.statics, v); }
      assert At(b1, n - 1) == After(b, IndexedField(v), n);
    }
  }

  /** The value behind a name of n octets, in the machine and in the grammar. */
  lemma ValueMatches(c: Codec, b: Block, x: Block, octets: seq<byte>, n: nat, ref: NameRef, name: seq<byte>,
                     indexing: bool)
    requires n <= |octets| && c.NameOf(ref, b.table) == Some(name)
    requires x.encoded == b.encoded + n && x.maximum == b.maximum && x.seenField && x.table == b.table
    ensures ValueFinal(c, x, octets[n..], name, indexing, b.log)
         == RepFinal(c, b, c.ParseValue(indexing, ref, n, octets), octets)
  {
    hide Str.Parse, Codec.Run;
    var rest := octets[n..];
    if Str.Parse(c.tree, rest).Some? {
      var (value, k) := Str.Parse(c.tree, rest).value;
      var r := LiteralField(indexing, ref, value);
      var d := Delivery(c, name, value, indexing, b.log, b.table);
      assert c.Perform(r, b.table, b.log, b.seenField) == d;
      if k <= |rest| {
        assert rest[k..] == octets[n + k..];
        assert Back(At(x, k), d) == Back(After(b, r, n + k), d);
        if !Takes(c.policy, b.log, NameEvents(name)) {
          NameRefused(c, name, indexing, b.log, b.table);
          RefusedFinal(c, false, rest[k..]);
        }
      }
    }
  }

  lemma NoName(c: Codec, b: Block, octets: seq<byte>, n: nat, ref: NameRef, indexing: bool)
    requires c.NameOf(ref, b.table).None?
    ensures RepFinal(c, b, c.ParseValue(indexing, ref, n, octets), octets).None?
  {
    var read := c.ParseValue(indexing, ref, n, octets);
    if read.Some? && read.value.1 <= |octets| {
      RefusedFinal(c, false, octets[read.value.1..]);
    }
  }

  /** Nothing of a field is delivered when the sink refuses even its beginning. */
  lemma BeginRefused(c: Codec, b: Block, octets: seq<byte>, indexing: bool)
    requires !Takes(c.policy, b.log, [BeginField])
    ensures RepFinal(c, b, c.ParseLiteral(indexing, octets), octets).None?
  {
    var read := c.ParseLiteral(indexing, octets);
    if read.Some? && read.value.1 <= |octets| {
      RefusedFinal(c, false, octets[read.value.1..]);
      var r := read.value.0;
      if c.NameOf(r.name, b.table).Some? {
        var f := Field(c.NameOf(r.name, b.table).value, r.value);
        var rest := TextEvents(f.name, true) + [BeginValue] + TextEvents(f.value, false) + [HpackSink.EndField];
        assert FieldEvents(f) == [BeginField] + rest;
        TakesAppend(c.policy, b.log, [BeginField], rest);
      }
    }
  }

  /** The block once a field has begun, its index read. */
  function Begun(b: Block, n: nat, indexing: bool): Block {
    At(b, n).(seenField := true, log := b.log + [BeginField], phase := NameStart(indexing),
              capture := if indexing then Some(Field([], [])) else None)
  }

  lemma NewNameMatches(c: Codec, b: Block, octets: seq<byte>, indexing: bool, n: nat)
    requires n <= |octets|
    ensures NewNameFinal(c, Begun(b, n, indexing), Str.Parse(c.tree, octets[n..]), octets[n..], indexing, b.log)
         == RepFinal(c, b, c.ParseNewName(indexing, n, octets), octets)
  {
    hide Str.Parse, Codec.Run;
    var rest := octets[n..];
    var read := Str.Parse(c.tree, rest);
    if read.Some? && read.value.1 <= |rest| && read.value.0 != [] {
      var m := read.value.1;
      assert rest[m..] == octets[n + m..];
      ValueMatches(c, b, At(Begun(b, n, indexing), m), octets, n + m, New(read.value.0), read.value.0, indexing);
    }
  }

  lemma KnownNameMatches(c: Codec, b: Block, octets: seq<byte>, indexing: bool, v: nat, n: nat)
    requires Between(c, b) && Room(b, octets) && n <= |octets| && v != 0
    requires Takes(c.policy, b.log, [BeginField])
    ensures var o := match b.table.Lookup(c.statics, v)
                     case None => Refused(false)
                     case Some(f) => c.AfterName(c.Emit(Begun(b, n, indexing), f.name, true), indexing);
            Final(c, o, octets[n..]) == RepFinal(c, b, c.ParseValue(indexing, Known(v), n, octets), octets)
  {
    var begun, rest := Begun(b, n, indexing), octets[n..];
    if c.NameOf(Known(v), b.table).Some? {
      var name := c.NameOf(Known(v), b.table).value;
      NameThenValue(c, begun, rest, name, indexing, b.log);
      ValueMatches(c, b, begun, octets, n, Known(v), name, indexing);
    } else {
      RefusedFinal(c, false, rest);
      NoName(c, b, octets, n, Known(v), indexing);
    }
  }

  /** What a completed name index leads to. */
  lemma NamedInteger(c: Codec, b: Block, v: nat, n: nat, indexing: bool)
    requires Takes(c.policy, b.log, [BeginField])
    ensures c.OnInteger(At(b, n).(seenField := true), v, Named(indexing)) ==
            if v == 0 then Ok(Begun(b, n, indexing))
            else match b.table.Lookup(c.statics, v)
              case None => Refused(false)
              case Some(f) => c.AfterName(c.Emit(Begun(b, n, indexing), f.name, true), indexing)
  {
  }

  lemma NameIndexRead(c: Codec, book: Codebook, b: Block, octets: seq<byte>, indexing: bool, v: nat, n: nat)
    requires Huff.Huffman(c.tree, book) && Between(c, b) && Room(b, octets) && n <= |octets|
    requires Takes(c.policy, b.log, [BeginField])
    requires Int.Parse(octets, if indexing then 6 else 4) == Some((v, n))
    ensures Final(c, c.OnInteger(At(b, n).(seenField := true), v, Named(indexing)), octets[n..])
         == RepFinal(c, b, c.ParseLiteral(indexing, octets), octets)
  {
    NamedInteger(c, b, v, n, indexing);
    if v == 0 {
      NewName(c, book, Begun(b, n, indexing), octets[n..], indexing, b.log);
      NewNameMatches(c, b, octets, indexing, n);
    } else {
      KnownNameMatches(c, b, octets, indexing, v, n);
    }
  }

  lemma LiteralCase(c: Codec, book: Codebook, b: Block, octets: seq<byte>)
    requires Huff.Huffman(c.tree, book) && octets != [] && octets[0] < 128 && octets[0] / 32 != 1
    requires Between(c, b) && Room(b, octets)
    ensures Final(c, Ok(b), octets) == RepFinal(c, b, c.ParseOne(octets), octets)
  {
    var indexing := octets[0] >= 64;
    LiteralBegin(c, b, octets, indexing);
    var read := Int.Parse(octets, if indexing then 6 else 4);
    if read.Some? {
      Int.ParseUsed(octets, if indexing then 6 else 4);
      LiteralIndex(c, book, b, octets, indexing, read.value.0, read.value.1);
    }
  }

  lemma LiteralBegin(c: Codec, b: Block, octets: seq<byte>, indexing: bool)
    requires octets != [] && octets[0] < 128 && octets[0] / 32 != 1 && indexing == (octets[0] >= 64)
    requires Between(c, b) && Room(b, octets)
    ensures Final(c, Ok(b), octets) ==
            match Int.Parse(octets, if indexing then 6 else 4)
            case None => None
            case Some((v, n)) =>
              if v > MAXIMUM_INDEX || !(1 <= n <= |octets|) then None
              else Final(c, c.OnInteger(At(b, n).(seenField := true), v, Named(indexing)), octets[n..])
  {
    hide Int.Start, Int.Read, Int.Next, Offer, Codec.OnInteger;
    var prefix := if indexing then 6 else 4;
    var b1 := At(b, 1).(seenField := true);
    Int.ReadIsParse(octets, prefix, MAXIMUM_INDEX);
    RunInteger(c, b1, octets, prefix, MAXIMUM_INDEX, Named(indexing));
    assert c.Step(b, octets[0]) == c.Integer(b1, Int.Start(octets[0], prefix, MAXIMUM_INDEX), Named(indexing));
    if Int.Parse(octets, prefix).Some? {
      var n := Int.Parse(octets, prefix).value.1;
      Int.ParseUsed(octets, prefix);
      assert At(b1, n - 1) == At(b, n).(seenField := true);
    }
  }

  lemma LiteralIndex(c: Codec, book: Codebook, b: Block, octets: seq<byte>, indexing: bool, v: nat, n: nat)
    requires Huff.Huffman(c.tree, book) && Between(c, b) && Room(b, octets) && n <= |octets|
    requires Int.Parse(octets, if indexing then 6 else 4) == Some((v, n))
    ensures RepFinal(c, b, c.ParseLiteral(indexing, octets), octets) ==
            if v <= MAXIMUM_INDEX then
                Final(c, c.OnInteger(At(b, n).(seenField := true), v, Named(indexing)), octets[n..])
            else None
  {
    if !Takes(c.policy, b.log, [BeginField]) {
      BeginRefused(c, b, octets, indexing);
      RefusedFinal(c, false, octets[n..]);
    } else if v <= MAXIMUM_INDEX {
      NameIndexRead(c, book, b, octets, indexing, v, n);
    } else {
      if b.table.Lookup(c.statics, v).Some? { ValidIndexes(b.table, c.statics, v); }
      NoName(c, b, octets, n, Known(v), indexing);
    }
  }

  // ----- the whole block

  lemma PerformValid(c: Codec, r: Representation, table: Table, log: Log, seenField: bool)
    requires table.Valid() && c.Perform(r, table, log, seenField).Some?
    ensures c.Perform(r, table, log, seenField).value.1.Valid()
  {
  }

  /**
   * From any block between representations and for every octet string within the budget, finishing the
   * machine yields what the whole-block decoder yields: same events, same table, same refusals.
   */
  lemma {:induction false} Refines(c: Codec, book: Codebook, b: Block, octets: seq<byte>)
    requires Huff.Huffman(c.tree, book) && Between(c, b) && Room(b, octets)
    ensures Final(c, Ok(b), octets) == c.Decode(octets, b.table, b.log, b.seenField)
    decreases |octets|
  {
    if octets != [] {
      if octets[0] >= 128 {
        IndexedCase(c, b, octets);
      } else if octets[0] / 32 == 1 {
        SizeUpdateCase(c, b, octets);
      } else {
        LiteralCase(c, book, b, octets);
      }
      var read := c.ParseOne(octets);
      if read.Some? {
        var (r, n) := read.value;
        RepresentationUsed(c, octets);
        if n <= |octets| {
          var delivered := c.Perform(r, b.table, b.log, b.seenField);
          RefusedFinal(c, false, octets[n..]);
          if delivered.Some? {
            PerformValid(c, r, b.table, b.log, b.seenField);
            Refines(c, book, Back(After(b, r, n), delivered).block, octets[n..]);
          }
        }
      }
    }
  }

  lemma RepresentationUsed(c: Codec, octets: seq<byte>)
    requires octets != [] && c.ParseOne(octets).Some?
    ensures c.ParseOne(octets).value.1 > 0
  {
    if octets[0] >= 128 { Int.ParseUsed(octets, 7); }
    else if octets[0] / 32 == 1 { Int.ParseUsed(octets, 5); }
    else { Int.ParseUsed(octets, if octets[0] >= 64 then 6 else 4); }
  }
}
