/**
 * Request heads on the wire, and the trip from a list of fields to a decoded header section: raw
 * never-indexed literals, HEADERS and CONTINUATION fragments, the frame gate, the block decoder.
 */
module Http2Request {
  import opened Bytes
  import opened HpackTable
  import opened HpackSink
  import opened HpackBlock
  import opened HuffmanTree
  import Int = HpackInteger
  import Str = HpackString
  import F = Http2Frames

  // ----- encoding

  function StringCode(text: seq<byte>): seq<byte> {
    Int.Encoded(|text|, 7) + text
  }

  /** A literal never-indexed field with a literal name (section 6.2.3 of RFC 7541). */
  function FieldCode(f: Field): seq<byte> {
    [0x10] + StringCode(f.name) + StringCode(f.value)
  }

  function BlockCode(fields: seq<Field>): seq<byte> {
    if fields == [] then [] else FieldCode(fields[0]) + BlockCode(fields[1..])
  }

  /** The length prefix is written octet by octet, low digits first. */
  method AppendString(output: seq<byte>, text: seq<byte>) returns (next: seq<byte>)
    ensures next == output + StringCode(text)
  {
    hide Int.Base128, Int.Terminated;
    assert Pow2(7) == 128;
    if |text| < 127 {
      next := output + [|text|];
    } else {
      next := output + [127];
      var remaining := |text| - 127;
      while remaining >= 128
        invariant remaining >= 0
        invariant next + Int.Digits(remaining) == output + [127] + Int.Digits(|text| - 127)
      {
        assert Int.Digits(remaining) == [remaining % 128 + 128] + Int.Digits(remaining / 128);
        next := next + [remaining % 128 + 128];
        remaining := remaining / 128;
      }
      next := next + [remaining];
    }
    next := next + text;
  }

  method AppendField(output: seq<byte>, name: seq<byte>, value: seq<byte>) returns (next: seq<byte>)
    ensures next == output + FieldCode(Field(name, value))
  {
    next := AppendString(output + [0x10], name);
    next := AppendString(next, value);
  }

  // ----- decoding what was encoded

  lemma {:induction false} ParseDigits(value: nat, rest: seq<byte>)
    ensures Int.ParseTail(Int.Digits(value) + rest) == Some((value, |Int.Digits(value)|))
    decreases value
  {
    var octets := Int.Digits(value) + rest;
    if value >= 128 {
      assert octets[1..] == Int.Digits(value / 128) + rest;
      ParseDigits(value / 128, rest);
    }
  }

  lemma ParseLength(length: nat, rest: seq<byte>)
    requires length <= U64_MAX
    ensures Int.Parse(Int.Encoded(length, 7) + rest, 7) == Some((length, |Int.Encoded(length, 7)|))
  {
    hide Int.Base128, Int.Terminated, Int.ParseTail, Int.Digits;
    assert Pow2(7) == 128;
    var octets := Int.Encoded(length, 7) + rest;
    if length >= 127 {
      ParseDigits(length - 127, rest);
      Int.TenDigits(length - 127);
      assert octets[1..] == Int.Digits(length - 127) + rest;
    }
  }

  lemma RawLength(length: nat)
    ensures Int.Encoded(length, 7)[0] < 128
  {
    assert Pow2(7) == 128;
  }

  lemma ParseString(t: Tree, text: seq<byte>, rest: seq<byte>)
    requires |text| <= U64_MAX
    ensures Str.Parse(t, StringCode(text) + rest) == Some((text, |StringCode(text)|))
  {
    hide Int.Encoded, Int.Parse;
    var length := Int.Encoded(|text|, 7);
    var octets := StringCode(text) + rest;
    ParseLength(|text|, text + rest);
    RawLength(|text|);
    assert octets == length + (text + rest);
    assert octets[|length|..|length| + |text|] == text;
  }

  lemma ParseField(c: Codec, f: Field, rest: seq<byte>)
    requires f.name != [] && |f.name| <= U64_MAX && |f.value| <= U64_MAX
    ensures c.ParseOne(FieldCode(f) + rest) == Some((LiteralField(false, New(f.name), f.value), |FieldCode(f)|))
  {
    hide StringCode, Str.Parse;
    var name, value := StringCode(f.name), StringCode(f.value);
    var octets := FieldCode(f) + rest;
    assert Pow2(4) == 16;
    assert Int.Parse(octets, 4) == Some((0, 1));
    assert octets[1..] == name + (value + rest);
    assert octets[1 + |name|..] == value + rest;
    ParseString(c.tree, f.name, value + rest);
    ParseString(c.tree, f.value, rest);
  }

  /** A field without a name is not a field: the block that carries it is refused. */
  lemma ParseNameless(c: Codec, f: Field, rest: seq<byte>)
    requires f.name == []
    ensures c.ParseOne(FieldCode(f) + rest).None?
  {
    hide Str.Parse;
    var value := StringCode(f.value);
    var octets := FieldCode(f) + rest;
    assert Pow2(4) == 16;
    assert Int.Parse(octets, 4) == Some((0, 1));
    assert octets[1..] == StringCode(f.name) + (value + rest);
    ParseString(c.tree, f.name, value + rest);
  }

  predicate AllNamed(fields: seq<Field>) {
    forall i :: 0 <= i < |fields| ==> fields[i].name != []
  }

  predicate Short(fields: seq<Field>) {
    forall i :: 0 <= i < |fields| ==> |fields[i].name| <= U64_MAX && |fields[i].value| <= U64_MAX
  }

  /** No field is longer than the block it is in. */
  lemma {:induction false} FieldsWithin(fields: seq<Field>, bound: nat)
    requires |BlockCode(fields)| <= bound
    ensures forall i :: 0 <= i < |fields| ==> |fields[i].name| <= bound && |fields[i].value| <= bound
    decreases |fields|
  {
    if fields != [] {
      FieldsWithin(fields[1..], bound);
      assert forall i :: 0 < i < |fields| ==> fields[i] == fields[1..][i - 1];
    }
  }

  /**
   * Every field named: the decoder delivers exactly the encoded fields and leaves the table alone.  Else it
   * refuses.
   */
  lemma {:induction false} DecodeEncoded(c: Codec, fields: seq<Field>, table: Table, log: Log, seen: bool)
    requires Short(fields)
    ensures c.Decode(BlockCode(fields), table, log, seen) ==
            if !AllNamed(fields) then None
            else match Offer(c.policy, log, AllEvents(fields)) case None => None case Some(next) => Some((next, table))
    decreases |fields|
  {
    hide FieldCode, FieldEvents, Codec.ParseOne;
    if fields == [] {
      assert log + [] == log;
    } else {
      var f, rest := fields[0], BlockCode(fields[1..]);
      var octets := BlockCode(fields);
      FieldCodeLength(f);
      assert octets[|FieldCode(f)|..] == rest;
      assert AllNamed(fields) <==> f.name != [] && AllNamed(fields[1..]) by { assert fields == [f] + fields[1..]; }
      if f.name == [] {
        ParseNameless(c, f, rest);
      } else {
        ParseField(c, f, rest);
        OfferAppend(c.policy, log, FieldEvents(f), AllEvents(fields[1..]));
        if Offer(c.policy, log, FieldEvents(f)).Some? {
          DecodeEncoded(c, fields[1..], table, log + FieldEvents(f), true);
        }
      }
    }
  }

  lemma FieldCodeLength(f: Field)
    ensures |FieldCode(f)| >= 3
  {
  }

  // ----- fragmentation

  function Minimum(a: nat, b: nat): nat { if a <= b then a else b }

  function Fragments(length: nat): nat { (length + F.MAXIMUM_FRAME_BYTES - 1) / F.MAXIMUM_FRAME_BYTES }

  /** HEADERS, then CONTINUATION; only the last fragment ends the headers, only the first may end the stream. */
  function Frames(block: seq<byte>, bodyEmpty: bool): (frames: seq<F.Frame>)
    ensures |frames| == Fragments(|block|)
  {
    var n := Fragments(|block|);
    seq(n, i requires 0 <= i < n => FrameAt(block, bodyEmpty, i))
  }

  function FrameAt(block: seq<byte>, bodyEmpty: bool, i: nat): F.Frame
    requires i < Fragments(|block|)
  {
    F.Frame(if i == 0 then F.HEADERS else F.CONTINUATION,
            (if i + 1 == Fragments(|block|) then 4 else 0) + (if i == 0 && bodyEmpty then 1 else 0),
            1, block[i * F.MAXIMUM_FRAME_BYTES..Minimum((i + 1) * F.MAXIMUM_FRAME_BYTES, |block|)])
  }

  /** The last fragment is the one that reaches the end, and every fragment is non-empty and fits a frame. */
  lemma FragmentBounds(length: nat, i: nat)
    requires i < Fragments(length)
    ensures i * F.MAXIMUM_FRAME_BYTES < length
    ensures i + 1 == Fragments(length) <==> length <= (i + 1) * F.MAXIMUM_FRAME_BYTES
  {
  }

  lemma {:induction false} PayloadsJoin(block: seq<byte>, bodyEmpty: bool, k: nat)
    requires k <= Fragments(|block|)
    ensures Concat(F.Payloads(Frames(block, bodyEmpty))[..k]) == block[..Minimum(k * F.MAXIMUM_FRAME_BYTES, |block|)]
    decreases k
  {
    var all := F.Payloads(Frames(block, bodyEmpty));
    if k > 0 {
      FragmentBounds(|block|, k - 1);
      PayloadsJoin(block, bodyEmpty, k - 1);
      assert all[..k] == all[..k - 1] + [all[k - 1]];
      ConcatSnoc(all[..k - 1], all[k - 1]);
    }
  }

  /** Fragmentation loses and reorders nothing. */
  lemma FragmentsJoin(block: seq<byte>, bodyEmpty: bool)
    ensures Concat(F.Payloads(Frames(block, bodyEmpty))) == block
  {
    var n := Fragments(|block|);
    PayloadsJoin(block, bodyEmpty, n);
    var all := F.Payloads(Frames(block, bodyEmpty));
    assert all[..n] == all;
    if n > 0 { FragmentBounds(|block|, n - 1); }
    assert Minimum(n * F.MAXIMUM_FRAME_BYTES, |block|) == |block|;
    assert block[..|block|] == block;
  }
}
