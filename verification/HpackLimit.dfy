/**
 * The encoded-limit flag of a refused block: it is raised exactly when the maximum made the difference.
 *
 * Two blocks that differ only in their maximum are run side by side.
 */
module HpackLimit {
  import opened Bytes
  import opened HpackTable
  import opened HpackBlock
  import Int = HpackInteger
  import Str = HpackString
  import HpackHuffman
  import HpackRefinement
  import HpackSink
  import HuffmanTree

  /** The same string in progress, but for the bound on its length. */
  predicate SameLiteral(a: Str.Literal, b: Str.Literal) {
    match a
    case Payload(_, _) => a == b
    case Length(p, huffman) =>
      b.Length? && huffman == b.huffman && p.maximum <= b.partial.maximum && p == b.partial.(maximum := p.maximum)
  }

  predicate SamePhase(a: Phase, b: Phase) {
    match a
    case NameText(literal, indexing) => b.NameText? && indexing == b.indexing && SameLiteral(literal, b.literal)
    case ValueText(literal, indexing) => b.ValueText? && indexing == b.indexing && SameLiteral(literal, b.literal)
    case _ => a == b
  }

  /** The same block under a maximum at least as large. */
  predicate Alike(a: Block, b: Block) {
    a.maximum <= b.maximum && SamePhase(a.phase, b.phase) && a == b.(maximum := a.maximum, phase := a.phase)
  }

  predicate Agree(a: Outcome, b: Outcome) {
    match a case Refused(_) => a == b case Ok(block) => b.Ok? && Alike(block, b.block)
  }

  // ----- a smaller maximum changes nothing, or is the reason for the refusal

  predicate SameStep(a: Str.Step, b: Str.Step) {
    match a
    case Going(literal, out) => b.Going? && out == b.out && SameLiteral(literal, b.literal)
    case _ => a == b
  }

  lemma NextSame(t: HuffmanTree.Tree, a: Str.Literal, b: Str.Literal, octet: byte)
    requires SameLiteral(a, b)
    ensures Str.Next(t, a, octet) == Str.Refused(true) || SameStep(Str.Next(t, a, octet), Str.Next(t, b, octet))
  {
    hide Pow2, HpackHuffman.Feed, HpackHuffman.Padding;
  }

  lemma StartSame(octet: byte, small: nat, large: nat)
    requires small <= large
    ensures Str.Start(octet, small).Refused? || SameStep(Str.Start(octet, small), Str.Start(octet, large))
  {
    hide Pow2;
  }

  lemma TextSame(c: Codec, a: Block, b: Block, s: Str.Step, r: Str.Step, name: bool, indexing: bool)
    requires Alike(a, b) && a.phase == Instruction && SameStep(s, r)
    ensures c.Text(a, s, name, indexing) == Refused(true)
         || Agree(c.Text(a, s, name, indexing), c.Text(b, r, name, indexing))
  {
    hide HpackSink.Offer, Capture, Store;
  }

  lemma OpenSame(c: Codec, a: Block, b: Block, octet: byte, name: bool, indexing: bool)
    requires Alike(a, b) && a.phase == Instruction && a.encoded <= a.maximum
    ensures c.Open(a, octet, name, indexing) == Refused(true)
         || Agree(c.Open(a, octet, name, indexing), c.Open(b, octet, name, indexing))
  {
    hide HpackSink.Offer, Capture, Store, Str.Start;
    StartSame(octet, a.maximum - a.encoded, b.maximum - b.encoded);
  }

  lemma IntegerSame(c: Codec, a: Block, b: Block, progress: Int.Progress, purpose: Purpose)
    requires Alike(a, b) && a.phase == Instruction
    ensures Agree(c.Integer(a, progress, purpose), c.Integer(b, progress, purpose))
  {
    hide HpackSink.Offer, Capture, Store;
  }

  lemma StepSame(c: Codec, a: Block, b: Block, octet: byte)
    requires Alike(a, b)
    ensures c.Step(a, octet) == Refused(true) || Agree(c.Step(a, octet), c.Step(b, octet))
  {
    hide Codec.Integer, Codec.Text, Codec.Open, Int.Start, Int.Next, Str.Next, Agree;
    if a.encoded + 1 <= a.maximum {
      var x := a.(encoded := a.encoded + 1, phase := Instruction);
      var y := b.(encoded := b.encoded + 1, phase := Instruction);
      match a.phase
      case Instruction => BeginSame(c, x, y, octet);
      case Index(p, purpose) => IntegerSame(c, x, y, Int.Next(p, octet), purpose);
      case NameStart(indexing) => OpenSame(c, x, y, octet, true, indexing);
      case ValueStart(indexing) => OpenSame(c, x, y, octet, false, indexing);
      case NameText(literal, indexing) =>
        NextSame(c.tree, literal, b.phase.literal, octet);
        TextRefused(c, x, true, indexing);
        if Str.Next(c.tree, literal, octet) != Str.Refused(true) {
          TextSame(c, x, y, Str.Next(c.tree, literal, octet), Str.Next(c.tree, b.phase.literal, octet), true,
                   indexing);
        }
      case ValueText(literal, indexing) =>
        NextSame(c.tree, literal, b.phase.literal, octet);
        TextRefused(c, x, false, indexing);
        if Str.Next(c.tree, literal, octet) != Str.Refused(true) {
          TextSame(c, x, y, Str.Next(c.tree, literal, octet), Str.Next(c.tree, b.phase.literal, octet), false,
                   indexing);
        }
    }
  }

  lemma TextRefused(c: Codec, b: Block, name: bool, indexing: bool)
    ensures c.Text(b, Str.Refused(true), name, indexing) == Refused(true)
  {
  }

  lemma BeginSame(c: Codec, a: Block, b: Block, octet: byte)
    requires Alike(a, b) && a.phase == Instruction
    ensures Agree(c.Begin(a, octet), c.Begin(b, octet))
  {
    hide Codec.Integer, Int.Start, Agree;
    var x, y := a.(seenField := true), b.(seenField := true);
    if octet >= 128 {
      IntegerSame(c, x, y, Int.Start(octet, 7, MAXIMUM_INDEX), Indexed);
    } else if octet / 32 == 1 {
      if a.seenField {
        AgreeRefused();
      } else {
        IntegerSame(c, a, b, Int.Start(octet, 5, MAXIMUM_DYNAMIC_TABLE_BYTES), Resizing);
      }
    } else {
      var indexing := octet >= 64;
      IntegerSame(c, x, y, Int.Start(octet, if indexing then 6 else 4, MAXIMUM_INDEX), Named(indexing));
    }
  }

  lemma AgreeRefused()
    ensures Agree(Refused(false), Refused(false))
  {
  }

  /** Run side by side, the smaller maximum is the reason for a refusal or makes no difference. */
  lemma {:induction false} RunSame(c: Codec, a: Block, b: Block, octets: seq<byte>)
    requires Alike(a, b)
    ensures c.Run(Ok(a), octets) == Refused(true) || Agree(c.Run(Ok(a), octets), c.Run(Ok(b), octets))
    decreases |octets|
  {
    hide Codec.Step, Alike;
    if octets != [] {
      StepSame(c, a, b, octets[0]);
      match c.Step(a, octets[0])
      case Refused(limit) =>
        HpackRefinement.RunRefused(c, limit, octets[1..]);
      case Ok(next) =>
        RunSame(c, next, c.Step(b, octets[0]).block, octets[1..]);
    }
  }

  // ----- where there is room for anything, the maximum is never the reason

  predicate RoomyLiteral(l: Str.Literal) {
    match l case Length(p, _) => p.maximum >= U64_MAX case Payload(remaining, _) => remaining <= U64_MAX
  }

  /** Room for that many octets more, and for any string they announce. */
  predicate Roomy(b: Block, octets: nat) {
    && b.encoded + octets + U64_MAX <= b.maximum
    && (b.phase.NameText? || b.phase.ValueText? ==> RoomyLiteral(b.phase.literal))
  }

  lemma NextRoomy(t: HuffmanTree.Tree, literal: Str.Literal, octet: byte)
    requires RoomyLiteral(literal)
    ensures Str.Next(t, literal, octet) != Str.Refused(true)
    ensures Str.Next(t, literal, octet).Going? ==> RoomyLiteral(Str.Next(t, literal, octet).literal)
  {
    hide Pow2, HpackHuffman.Feed, HpackHuffman.Padding;
  }

  lemma StartRoomy(octet: byte, maximum: nat)
    requires maximum >= U64_MAX
    ensures !Str.Start(octet, maximum).Refused?
    ensures Str.Start(octet, maximum).Going? ==> RoomyLiteral(Str.Start(octet, maximum).literal)
  {
    assert Pow2(7) == 128;
  }

  lemma StepRoomy(c: Codec, b: Block, octet: byte, octets: nat)
    requires Roomy(b, octets + 1)
    ensures c.Step(b, octet) != Refused(true)
    ensures c.Step(b, octet).Ok? ==> Roomy(c.Step(b, octet).block, octets)
  {
    hide Codec.Integer, Codec.Text, Codec.Open, Int.Start, Int.Next, Str.Next;
    var x := b.(encoded := b.encoded + 1, phase := Instruction);
    match b.phase
    case Instruction => BeginRoomy(c, x, octet, octets);
    case Index(p, purpose) => IntegerRoomy(c, x, Int.Next(p, octet), purpose, octets);
    case NameStart(indexing) => OpenRoomy(c, x, octet, true, indexing, octets);
    case ValueStart(indexing) => OpenRoomy(c, x, octet, false, indexing, octets);
    case NameText(literal, indexing) =>
      NextRoomy(c.tree, literal, octet);
      TextRoomy(c, x, Str.Next(c.tree, literal, octet), true, indexing, octets);
    case ValueText(literal, indexing) =>
      NextRoomy(c.tree, literal, octet);
      TextRoomy(c, x, Str.Next(c.tree, literal, octet), false, indexing, octets);
  }

  lemma IntegerRoomy(c: Codec, b: Block, progress: Int.Progress, purpose: Purpose, octets: nat)
    requires Roomy(b, octets) && b.phase == Instruction
    ensures c.Integer(b, progress, purpose) != Refused(true)
    ensures c.Integer(b, progress, purpose).Ok? ==> Roomy(c.Integer(b, progress, purpose).block, octets)
  {
    hide HpackSink.Offer, Capture, Store;
  }

  lemma BeginRoomy(c: Codec, b: Block, octet: byte, octets: nat)
    requires Roomy(b, octets) && b.phase == Instruction
    ensures c.Begin(b, octet) != Refused(true)
    ensures c.Begin(b, octet).Ok? ==> Roomy(c.Begin(b, octet).block, octets)
  {
    hide Codec.Integer, Int.Start;
    var x := b.(seenField := true);
    IntegerRoomy(c, x, Int.Start(octet, 7, MAXIMUM_INDEX), Indexed, octets);
    IntegerRoomy(c, b, Int.Start(octet, 5, MAXIMUM_DYNAMIC_TABLE_BYTES), Resizing, octets);
    var indexing := octet >= 64;
    IntegerRoomy(c, x, Int.Start(octet, if indexing then 6 else 4, MAXIMUM_INDEX), Named(indexing), octets);
  }

  lemma OpenRoomy(c: Codec, b: Block, octet: byte, name: bool, indexing: bool, octets: nat)
    requires Roomy(b, octets) && b.phase == Instruction
    ensures c.Open(b, octet, name, indexing) != Refused(true)
    ensures c.Open(b, octet, name, indexing).Ok? ==> Roomy(c.Open(b, octet, name, indexing).block, octets)
  {
    hide HpackSink.Offer, Capture, Store, Str.Start;
    StartRoomy(octet, b.maximum - b.encoded);
  }

  lemma TextRoomy(c: Codec, b: Block, s: Str.Step, name: bool, indexing: bool, octets: nat)
    requires Roomy(b, octets) && b.phase == Instruction && s != Str.Refused(true)
    requires s.Going? ==> RoomyLiteral(s.literal)
    ensures c.Text(b, s, name, indexing) != Refused(true)
    ensures c.Text(b, s, name, indexing).Ok? ==> Roomy(c.Text(b, s, name, indexing).block, octets)
  {
    hide HpackSink.Offer, Capture, Store;
  }

  lemma {:induction false} RunRoomy(c: Codec, b: Block, octets: seq<byte>)
    requires Roomy(b, |octets|)
    ensures c.Run(Ok(b), octets) != Refused(true)
    decreases |octets|
  {
    hide Codec.Step, Roomy;
    if octets != [] {
      StepRoomy(c, b, octets[0], |octets| - 1);
      match c.Step(b, octets[0])
      case Refused(limit) => HpackRefinement.RunRefused(c, limit, octets[1..]);
      case Ok(next) => RunRoomy(c, next, octets[1..]);
    }
  }

  /**
   * For every block and every maximum: the flag is raised exactly when the same octets would have ended
   * otherwise with no maximum in their way.
   */
  lemma LimitIff(c: Codec, table: Table, maximum: nat, roomy: nat, octets: seq<byte>)
    requires maximum <= roomy && |octets| + U64_MAX <= roomy
    ensures c.Run(Ok(Fresh(table, maximum)), octets) == Refused(true) <==>
              !Agree(c.Run(Ok(Fresh(table, maximum)), octets), c.Run(Ok(Fresh(table, roomy)), octets))
  {
    hide Codec.Step, Codec.Run;
    RunSame(c, Fresh(table, maximum), Fresh(table, roomy), octets);
    RunRoomy(c, Fresh(table, roomy), octets);
  }
}
