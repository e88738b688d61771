/**
 * Header blocks as a compressor may write them (section 6 of RFC 7541): indexed fields, the three kinds of
 * literal, size updates, raw and Huffman strings.  Whatever it chooses, the block decoder delivers the
 * fields it compressed.
 */
module HpackRepresentations {
  import opened Bytes
  import opened Ascii
  import opened HuffmanTree
  import opened HpackTable
  import opened HpackSink
  import opened HpackBlock
  import Int = HpackInteger
  import Str = HpackString
  import Huff = HpackHuffman
  import Request = Http2Request

  datatype Kind = Incremental | Plain | Never

  /** A text and the octets that stand for it. */
  datatype Spelling = Raw(text: seq<byte>) | Packed(text: seq<byte>, payload: seq<byte>)

  datatype Name = ByIndex(index: nat) | ByText(spelling: Spelling)

  datatype Written = Reference(index: nat) | Literal(kind: Kind, name: Name, value: Spelling) | SetSize(size: nat)

  /** A number in a prefix, the bits in front of it set to a pattern. */
  function Marked(value: nat, prefix: nat, mark: nat): seq<byte>
    requires 1 <= prefix <= 8 && mark + Pow2(prefix) <= 256
  {
    var octets := Int.Encoded(value, prefix);
    MarkFits(value, prefix, mark);
    [mark + octets[0]] + octets[1..]
  }

  lemma MarkFits(value: nat, prefix: nat, mark: nat)
    requires 1 <= prefix <= 8 && mark + Pow2(prefix) <= 256
    ensures Int.Encoded(value, prefix)[0] < Pow2(prefix)
  {
    Int.PrefixMask(prefix);
  }

  lemma Marks()
    ensures Pow2(7) == 128 && Pow2(6) == 64 && Pow2(5) == 32 && Pow2(4) == 16
  {
  }

  function StringCode(s: Spelling): seq<byte> {
    Marks();
    match s
    case Raw(text) => Marked(|text|, 7, 0) + text
    case Packed(_, payload) => Marked(|payload|, 7, 128) + payload
  }

  function LiteralMark(kind: Kind): nat {
    match kind case Incremental => 64 case Plain => 0 case Never => 16
  }

  function LiteralPrefix(kind: Kind): nat { if kind == Incremental then 6 else 4 }

  function Code(w: Written): seq<byte> {
    Marks();
    match w
    case Reference(index) => Marked(index, 7, 128)
    case SetSize(size) => Marked(size, 5, 32)
    case Literal(kind, ByIndex(index), value) =>
      Marked(index, LiteralPrefix(kind), LiteralMark(kind)) + StringCode(value)
    case Literal(kind, ByText(name), value) =>
      Marked(0, LiteralPrefix(kind), LiteralMark(kind)) + StringCode(name) + StringCode(value)
  }

  /** The payload is the text, or its Huffman codes padded with ones. */
  ghost predicate Spells(book: Codebook, s: Spelling)
    requires |book| == EOS + 1
  {
    && |s.text| <= U64_MAX
    && (s.Packed? ==>
          && |s.payload| <= U64_MAX
          && exists k :: 0 <= k <= 7 && Huff.OctetBits(s.payload) == Huff.CodesOf(book, s.text) + Huff.Ones(k))
  }

  ghost predicate Lawful(book: Codebook, w: Written)
    requires |book| == EOS + 1
  {
    match w
    case Reference(index) => index <= U64_MAX
    case SetSize(size) => size <= U64_MAX
    case Literal(_, ByIndex(index), value) => 1 <= index <= U64_MAX && Spells(book, value)
    case Literal(_, ByText(name), value) => name.text != [] && Spells(book, name) && Spells(book, value)
  }

  function Meant(w: Written): Representation {
    match w
    case Reference(index) => IndexedField(index)
    case SetSize(size) => SizeUpdate(size)
    case Literal(kind, ByIndex(index), value) => LiteralField(kind == Incremental, Known(index), value.text)
    case Literal(kind, ByText(name), value) => LiteralField(kind == Incremental, New(name.text), value.text)
  }

  // ----- every piece is read back

  lemma ParseMarked(value: nat, prefix: nat, mark: nat, rest: seq<byte>)
    requires 4 <= prefix <= 7 && mark + Pow2(prefix) <= 256 && value <= U64_MAX
    requires mark == 0 || mark == Pow2(prefix)
    ensures Int.Parse(Marked(value, prefix, mark) + rest, prefix) == Some((value, |Marked(value, prefix, mark)|))
    ensures mark <= (Marked(value, prefix, mark) + rest)[0] < mark + Pow2(prefix)
  {
    hide Pow2, Int.Base128, Int.Terminated, Int.ParseTail, Int.Digits;
    var octets, first := Marked(value, prefix, mark) + rest, Int.Encoded(value, prefix)[0];
    MarkFits(value, prefix, mark);
    Remainder(first, Pow2(prefix), if mark == 0 then 0 else 1);
    var mask := Pow2(prefix) - 1;
    if value >= mask {
      Request.ParseDigits(value - mask, rest);
      Int.TenDigits(value - mask);
      assert octets[1..] == Int.Digits(value - mask) + rest;
    }
  }

  lemma Remainder(a: nat, n: nat, m: nat)
    requires a < n && m <= 1
    ensures (m * n + a) % n == a
  {
  }

  /** A length and the payload it announces. */
  lemma ParsePayload(t: Tree, payload: seq<byte>, mark: nat, rest: seq<byte>)
    requires |payload| <= U64_MAX && (mark == 0 || mark == 128) && Pow2(7) == 128
    ensures var code := Marked(|payload|, 7, mark) + payload;
            Str.Parse(t, code + rest) ==
            match Str.Decoded(t, payload, mark == 128) case None => None case Some(text) => Some((text, |code|))
  {
    hide Int.Parse, Marked, Str.Decoded;
    var length := Marked(|payload|, 7, mark);
    var octets := length + payload + rest;
    ParseMarked(|payload|, 7, mark, payload + rest);
    assert octets == length + (payload + rest);
    assert octets[|length|..|length| + |payload|] == payload;
  }

  lemma ParseString(t: Tree, book: Codebook, s: Spelling, rest: seq<byte>)
    requires Huff.Huffman(t, book) && Spells(book, s)
    ensures Str.Parse(t, StringCode(s) + rest) == Some((s.text, |StringCode(s)|))
  {
    hide Str.Parse, Marked;
    Marks();
    match s
    case Raw(text) => ParsePayload(t, text, 0, rest);
    case Packed(text, payload) =>
      ParsePayload(t, payload, 128, rest);
      Huff.AcceptedIff(t, book, payload, text);
  }

  lemma ParseWritten(c: Codec, book: Codebook, w: Written, rest: seq<byte>)
    requires Huff.Huffman(c.tree, book) && Lawful(book, w)
    ensures c.ParseOne(Code(w) + rest) == Some((Meant(w), |Code(w)|))
  {
    hide Int.Parse, Marked, Huff.Huffman, Str.Parse, StringCode, Spells;
    Marks();
    var octets := Code(w) + rest;
    match w
    case Reference(index) =>
      ParseMarked(index, 7, 128, rest);
    case SetSize(size) =>
      ParseMarked(size, 5, 32, rest);
    case Literal(kind, ByIndex(index), value) =>
      var head := MarkedLiteral(kind, index, StringCode(value) + rest);
      assert octets == head + (StringCode(value) + rest);
      ParseString(c.tree, book, value, rest);
      assert octets[|head|..] == StringCode(value) + rest;
    case Literal(kind, ByText(name), value) =>
      var behind := StringCode(value) + rest;
      var head := MarkedLiteral(kind, 0, StringCode(name) + behind);
      assert octets == head + (StringCode(name) + behind);
      ParseString(c.tree, book, name, behind);
      ParseString(c.tree, book, value, rest);
      assert octets[|head|..] == StringCode(name) + behind;
      assert octets[|head| + |StringCode(name)|..] == behind;
  }

  lemma MarkedLiteral(kind: Kind, index: nat, rest: seq<byte>) returns (head: seq<byte>)
    requires index <= U64_MAX && LiteralMark(kind) + Pow2(LiteralPrefix(kind)) <= 256
    ensures head == Marked(index, LiteralPrefix(kind), LiteralMark(kind))
    ensures Int.Parse(head + rest, LiteralPrefix(kind)) == Some((index, |head|))
    ensures head != [] && (head + rest)[0] == head[0]
    ensures head[0] < 128 && head[0] / 32 != 1 && (head[0] >= 64 <==> kind == Incremental)
  {
    hide Int.Parse;
    Marks();
    head := Marked(index, LiteralPrefix(kind), LiteralMark(kind));
    ParseMarked(index, LiteralPrefix(kind), LiteralMark(kind), rest);
    assert (head + rest)[0] == head[0];
  }

  // ----- what a compressor means

  function Codes(ws: seq<Written>): seq<byte> {
    if ws == [] then [] else Code(ws[0]) + Codes(ws[1..])
  }

  ghost predicate AllLawful(book: Codebook, ws: seq<Written>)
    requires |book| == EOS + 1
  {
    forall i :: 0 <= i < |ws| ==> Lawful(book, ws[i])
  }

  /** The field a representation stands for while the table is this. */
  function Stands(statics: seq<Field>, table: Table, w: Written): Option<Field> {
    match w
    case Reference(index) => table.Lookup(statics, index)
    case SetSize(_) => None
    case Literal(_, ByText(name), value) => Some(Field(name.text, value.text))
    case Literal(_, ByIndex(index), value) =>
      match table.Lookup(statics, index) case None => None case Some(f) => Some(Field(f.name, value.text))
  }

  /** These representations compress these fields, from one table to another; capacities are set first. */
  predicate Compress(statics: seq<Field>, table: Table, ws: seq<Written>, fields: seq<Field>, after: Table, begun: bool)
    decreases |ws|
  {
    if ws == [] then fields == [] && after == table
    else if ws[0].SetSize? then
      !begun && ws[0].size <= 4096 && Compress(statics, table.Resized(ws[0].size).value, ws[1..], fields, after, false)
    else
      && fields != [] && Stands(statics, table, ws[0]) == Some(fields[0])
      && Compress(statics, NextTable(table, ws[0], fields[0]), ws[1..], fields[1..], after, true)
  }

  function NextTable(table: Table, w: Written, f: Field): Table {
    if w.Literal? && w.kind == Incremental then table.Inserted(f) else table
  }

  lemma PerformWritten(c: Codec, table: Table, log: Log, w: Written, f: Field, seen: bool)
    requires !w.SetSize? && Stands(c.statics, table, w) == Some(f)
    ensures c.Perform(Meant(w), table, log, seen) == c.Delivered(f, log, NextTable(table, w, f))
  {
  }

  /**
   * Whatever representations, indexes and string codings a compressor chose: the decoder delivers exactly
   * the fields it compressed, in order, and ends with its table.
   */
  lemma {:induction false} DecodeCompressed(c: Codec, book: Codebook, table: Table, ws: seq<Written>,
                                            fields: seq<Field>,
                                            after: Table, log: Log, begun: bool)
    requires Huff.Huffman(c.tree, book) && AllLawful(book, ws) && Compress(c.statics, table, ws, fields, after, begun)
    ensures c.Decode(Codes(ws), table, log, begun) ==
            match Offer(c.policy, log, AllEvents(fields)) case None => None case Some(next) => Some((next, after))
    decreases |ws|
  {
    hide Codec.ParseOne, Code, Lawful, FieldEvents;
    if ws == [] {
      assert log + [] == log;
    } else {
      var w, rest := ws[0], Codes(ws[1..]);
      assert Lawful(book, w) && AllLawful(book, ws[1..]);
      ParseWritten(c, book, w, rest);
      CodeNotEmpty(w);
      assert Codes(ws)[|Code(w)|..] == rest;
      if w.SetSize? {
        DecodeCompressed(c, book, table.Resized(w.size).value, ws[1..], fields, after, log, false);
      } else {
        var f := fields[0];
        PerformWritten(c, table, log, w, f, begun);
        OfferAppend(c.policy, log, FieldEvents(f), AllEvents(fields[1..]));
        if Offer(c.policy, log, FieldEvents(f)).Some? {
          DecodeCompressed(c, book, NextTable(table, w, f), ws[1..], fields[1..], after, log + FieldEvents(f), true);
        }
      }
    }
  }

  lemma CodeNotEmpty(w: Written)
    ensures |Code(w)| > 0
  {
  }

  /** A capacity set behind a field, or above 4096, refuses the block, whatever follows. */
  lemma LateResize(c: Codec, book: Codebook, size: nat, rest: seq<byte>, table: Table, log: Log, begun: bool)
    requires Huff.Huffman(c.tree, book) && size <= U64_MAX && (begun || size > 4096)
    ensures c.Decode(Code(SetSize(size)) + rest, table, log, begun).None?
  {
    hide Codec.ParseOne, Code, Huff.Huffman;
    ParseWritten(c, book, SetSize(size), rest);
    CodeNotEmpty(SetSize(size));
  }

  /** An index nothing stands at refuses the block, whatever follows. */
  lemma DanglingIndex(c: Codec, book: Codebook, index: nat, rest: seq<byte>, table: Table, log: Log, begun: bool)
    requires Huff.Huffman(c.tree, book) && index <= U64_MAX && table.Lookup(c.statics, index).None?
    ensures c.Decode(Code(Reference(index)) + rest, table, log, begun).None?
  {
    hide Codec.ParseOne, Code, Huff.Huffman;
    ParseWritten(c, book, Reference(index), rest);
    CodeNotEmpty(Reference(index));
  }

  /** A field sent once with indexing and then by index 62 arrives twice, if the table can hold it. */
  lemma SentTwice(c: Codec, book: Codebook, table: Table, name: seq<byte>, value: seq<byte>)
    requires Huff.Huffman(c.tree, book) && |c.statics| == 61 && table.Valid()
    requires name != [] && |name| + |value| + 32 <= table.maximum
    ensures var f := Field(name, value);
            c.Decode(Codes([Literal(Incremental, ByText(Raw(name)), Raw(value)), Reference(62)]), table, [], false) ==
            if Takes(c.policy, [], AllEvents([f, f])) then Some((AllEvents([f, f]), table.Inserted(f))) else None
  {
    var f, ws := Field(name, value), [Literal(Incremental, ByText(Raw(name)), Raw(value)), Reference(62)];
    assert ws[1..] == [Reference(62)] && [f, f][1..] == [f] && [Reference(62)][1..] == [] && [f][1..] == [];
    FieldFits(table, f);
    assert Compress(c.statics, table.Inserted(f), [Reference(62)], [f], table.Inserted(f), true);
    assert Compress(c.statics, table, ws, [f, f], table.Inserted(f), false);
    DecodeCompressed(c, book, table, ws, [f, f], table.Inserted(f), [], false);
    assert [] + AllEvents([f, f]) == AllEvents([f, f]);
  }

  /** One octet, 0x88, is a status of 200. */
  lemma StatusInOneOctet(c: Codec, book: Codebook, table: Table)
    requires Huff.Huffman(c.tree, book) && c.statics == StaticFields()
    ensures var f := Field(Octets(":status"), Octets("200"));
            c.Decode([0x88], table, [], false) ==
            if Takes(c.policy, [], AllEvents([f])) then Some((AllEvents([f]), table)) else None
  {
    var f, ws := Field(Octets(":status"), Octets("200")), [Reference(8)];
    StaticIndex(table, 8);
    assert StaticEntry(7) == (":status", "200");
    assert Int.Encoded(8, 7) == [8] by { Marks(); }
    assert Marked(8, 7, 128) == [0x88] by { Marks(); }
    assert ws[1..] == [] && [f][1..] == [];
    assert Codes(ws) == Code(ws[0]) + Codes(ws[1..]);
    assert Compress(c.statics, table, ws, [f], table, false);
    DecodeCompressed(c, book, table, ws, [f], table, [], false);
    assert [] + AllEvents([f]) == AllEvents([f]);
  }

  /** What requests are written with: never indexed, both strings raw. */
  lemma RequestFieldIs(f: Field)
    ensures Request.FieldCode(f) == Code(Literal(Never, ByText(Raw(f.name)), Raw(f.value)))
  {
    hide StringCode, Request.StringCode;
    Marks();
    RawIs(f.name);
    RawIs(f.value);
    NeverIs();
    assert [16] + [] + StringCode(Raw(f.name)) + StringCode(Raw(f.value)) == Request.FieldCode(f);
  }

  lemma NeverIs()
    requires Pow2(4) == 16
    ensures Marked(0, 4, 16) == [16] + []
  {
    assert Int.Encoded(0, 4) == [0];
  }

  lemma RawIs(text: seq<byte>)
    ensures StringCode(Raw(text)) == Request.StringCode(text)
  {
    Marks();
    var octets := Int.Encoded(|text|, 7);
    assert [0 + octets[0]] + octets[1..] == octets;
  }
}
