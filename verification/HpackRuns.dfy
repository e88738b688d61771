/** Whole runs of the block machine: any fragmentation, and the encoded budget. */
module HpackRuns {
  import opened Bytes
  import opened HuffmanTree
  import opened HpackTable
  import opened HpackSink
  import opened HpackBlock
  import opened HpackRefinement
  import Int = HpackInteger
  import Str = HpackString
  import Huff = HpackHuffman
  import HpackCodes

  /** A string whose length is known and whose payload has begun. */
  predicate InPayload(b: Block) {
    (b.phase.NameText? || b.phase.ValueText?) && b.phase.literal.Payload?
  }

  /** A declared payload still fits the budget, and has at least one octet to come. */
  predicate Funded(b: Block) {
    && b.encoded <= b.maximum
    && (InPayload(b) ==>
          1 <= b.phase.literal.remaining <= b.maximum - b.encoded)
  }

  /** What a step may do to the budget. */
  predicate Charged(before: Block, o: Outcome) {
    o.Ok? ==> Funded(o.block) && o.block.encoded == before.encoded && o.block.maximum == before.maximum
  }

  lemma IntegerCharged(c: Codec, b: Block, progress: Int.Progress, purpose: Purpose)
    requires b.encoded <= b.maximum && b.phase == Instruction
    ensures Charged(b, c.Integer(b, progress, purpose))
  {
    hide Offer;
  }

  lemma TextCharged(c: Codec, b: Block, step: Str.Step, name: bool, indexing: bool)
    requires b.encoded <= b.maximum && b.phase == Instruction
    requires step.Going? && step.literal.Payload? ==> step.literal.remaining > 0
    ensures Charged(b, c.Text(b, step, name, indexing))
  {
    hide Offer;
  }

  lemma OpenCharged(c: Codec, b: Block, octet: byte, name: bool, indexing: bool)
    requires b.encoded <= b.maximum && b.phase == Instruction
    ensures Charged(b, c.Open(b, octet, name, indexing))
  {
    hide Offer;
  }

  /** Every accepted octet is charged once, and the charge never passes the maximum. */
  lemma StepCharged(c: Codec, b: Block, octet: byte)
    requires Funded(b)
    ensures c.Step(b, octet).Ok? ==>
              var next := c.Step(b, octet).block;
              Funded(next) && next.encoded == b.encoded + 1 && next.maximum == b.maximum
  {
    hide Codec.Integer, Codec.Text, Codec.Open, Int.Next, Int.Start;
    if b.encoded < b.maximum {
      var b1 := At(b, 1);
      match b.phase
      case Instruction =>
        var indexing := octet >= 64;
        IntegerCharged(c, b1, Int.Start(octet, 5, MAXIMUM_DYNAMIC_TABLE_BYTES), Resizing);
        IntegerCharged(c, b1.(seenField := true), Int.Start(octet, 7, MAXIMUM_INDEX), Indexed);
        IntegerCharged(c, b1.(seenField := true), Int.Start(octet, if indexing then 6 else 4, MAXIMUM_INDEX),
            Named(indexing));
      case Index(p, purpose) => IntegerCharged(c, b1, Int.Next(p, octet), purpose);
      case NameStart(indexing) => OpenCharged(c, b1, octet, true, indexing);
      case ValueStart(indexing) => OpenCharged(c, b1, octet, false, indexing);
      case NameText(literal, indexing) => TextCharged(c, b1, Str.Next(c.tree, literal, octet), true, indexing);
      case ValueText(literal, indexing) => TextCharged(c, b1, Str.Next(c.tree, literal, octet), false, indexing);
    }
  }

  /** An accepted run has charged exactly its octets. */
  lemma {:induction false} RunCharged(c: Codec, b: Block, octets: seq<byte>)
    requires Funded(b)
    ensures c.Run(Ok(b), octets).Ok? ==>
              var next := c.Run(Ok(b), octets).block;
              Funded(next) && next.encoded == b.encoded + |octets| && next.maximum == b.maximum
    decreases |octets|
  {
    hide Codec.Step;
    if octets != [] {
      StepCharged(c, b, octets[0]);
      match c.Step(b, octets[0])
      case Refused(limit) => RunRefused(c, limit, octets[1..]);
      case Ok(next) => RunCharged(c, next, octets[1..]);
    }
  }

  /** Inside a declared payload the budget is never the reason to refuse. */
  lemma PayloadStep(c: Codec, b: Block, octet: byte)
    requires Funded(b) && InPayload(b)
    ensures c.Step(b, octet) != Refused(true)
    ensures c.Step(b, octet).Ok? && b.phase.literal.remaining > 1 ==>
              var next := c.Step(b, octet).block;
              InPayload(next) && next.phase.literal.remaining == b.phase.literal.remaining - 1
  {
    hide Offer;
  }

  /**
   * A literal whose declared length has passed is never later refused for the encoded budget: not by
   * any of its remaining octets, whatever they are.
   */
  lemma {:induction false} NeverRefusedForBudget(c: Codec, b: Block, octets: seq<byte>)
    requires Funded(b) && InPayload(b)
    requires |octets| <= b.phase.literal.remaining
    ensures c.Run(Ok(b), octets) != Refused(true)
    decreases |octets|
  {
    hide Codec.Step;
    if octets != [] {
      PayloadStep(c, b, octets[0]);
      StepCharged(c, b, octets[0]);
      match c.Step(b, octets[0]) {
        case Refused(limit) => RunRefused(c, limit, octets[1..]);
        case Ok(next) =>
          if |octets| > 1 { NeverRefusedForBudget(c, next, octets[1..]); }
          else { assert c.Run(Ok(next), octets[1..]) == Ok(next); }
      }
    }
  }

  /** The same, said of every block a fresh one can run to. */
  lemma ReachedIsFunded(c: Codec, table: Table, maximum: nat, octets: seq<byte>, more: seq<byte>)
    requires c.Run(Ok(Fresh(table, maximum)), octets).Ok?
    ensures var b := c.Run(Ok(Fresh(table, maximum)), octets).block;
            && b.encoded == |octets| <= maximum
            && (InPayload(b) && |more| <= b.phase.literal.remaining
                ==> c.Run(Ok(b), more) != Refused(true))
  {
    hide Codec.Run;
    RunCharged(c, Fresh(table, maximum), octets);
    var b := c.Run(Ok(Fresh(table, maximum)), octets).block;
    if InPayload(b) && |more| <= b.phase.literal.remaining {
      NeverRefusedForBudget(c, b, more);
    }
  }

  // ----- any fragmentation

  function Pushed(c: Codec, o: Outcome, fragments: seq<seq<byte>>): Outcome
    decreases |fragments|
  {
    if fragments == [] then o else Pushed(c, c.Run(o, fragments[0]), fragments[1..])
  }

  lemma {:induction false} PushedIsRun(c: Codec, o: Outcome, fragments: seq<seq<byte>>)
    ensures Pushed(c, o, fragments) == c.Run(o, Concat(fragments))
    decreases |fragments|
  {
    if fragments != [] {
      PushedIsRun(c, c.Run(o, fragments[0]), fragments[1..]);
      RunAppend(c, o, fragments[0], Concat(fragments[1..]));
    }
  }

  /**
   * A header block pushed in any fragments, empty ones included, is accepted with the events and the
   * table of the whole-block decoder, and refused exactly when that decoder refuses it or it is longer
   * than the encoded maximum.
   */
  lemma AnyFragments(c: Codec, book: Codebook, table: Table, maximum: nat, fragments: seq<seq<byte>>)
    requires Huff.Huffman(c.tree, book) && table.Valid() && |c.statics| == 61 && maximum <= U64_MAX
    ensures Finished(Pushed(c, Ok(Fresh(table, maximum)), fragments)) ==
            if |Concat(fragments)| <= maximum then c.Decode(Concat(fragments), table, [], false) else None
  {
    var octets := Concat(fragments);
    PushedIsRun(c, Ok(Fresh(table, maximum)), fragments);
    if |octets| <= maximum {
      Refines(c, book, Fresh(table, maximum), octets);
    } else {
      RunCharged(c, Fresh(table, maximum), octets);
    }
  }

  /** The same for the code of Appendix B and the static table of Appendix A of RFC 7541. */
  lemma InstalledFragments(policy: Policy, table: Table, maximum: nat, fragments: seq<seq<byte>>)
    requires table.Valid() && maximum <= U64_MAX
    ensures var c := Codec(Huff.HpackTree(), StaticFields(), policy);
            Finished(Pushed(c, Ok(Fresh(table, maximum)), fragments)) ==
            if |Concat(fragments)| <= maximum then c.Decode(Concat(fragments), table, [], false) else None
  {
    AnyFragments(Codec(Huff.HpackTree(), StaticFields(), policy), HpackCodes.Book(), table, maximum, fragments);
  }
}
