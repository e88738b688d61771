/**
 * Length-delimited string literals (section 5.2 of RFC 7541), read octet by octet.
 *
 * `Literal` is a string in progress and `Next` its step; `Parse` is the same grammar over a whole
 * input.  The class composes the integer and Huffman readers in place.
 */
module HpackString {
  import opened Bytes
  import opened HuffmanTree
  import Int = HpackInteger
  import Huff = HpackHuffman
  import Strings = HpackHuffmanString
  import Trie = HuffmanTrie

  datatype Coding = Raw | Huffman(path: Bits)

  datatype Literal = Length(partial: Int.Partial, huffman: bool) | Payload(remaining: nat, coding: Coding)

  /** What one octet did: the octets it made known, and whether the string goes on. */
  datatype Step = Going(literal: Literal, out: seq<byte>) | Complete(out: seq<byte>) | Refused(limit: bool)

  function Opened(length: nat, huffman: bool): Step {
    if length == 0 then Complete([]) else Going(Payload(length, if huffman then Huffman([]) else Raw), [])
  }

  function Start(first: byte, maximum: nat): Step {
    match Int.Start(first, 7, maximum)
    case Refused(limit) => Refused(limit)
    case Done(length) => Opened(length, first >= 128)
    case More(p) => Going(Length(p, first >= 128), [])
  }

  function Next(t: Tree, literal: Literal, octet: byte): Step {
    match literal
    case Length(p, huffman) => (
      match Int.Next(p, octet)
      case Refused(limit) => Refused(limit)
      case Done(length) => Opened(length, huffman)
      case More(q) => Going(Length(q, huffman), []))
    case Payload(remaining, Raw) =>
      if remaining <= 1 then Complete([octet]) else Going(Payload(remaining - 1, Raw), [octet])
    case Payload(remaining, Huffman(path)) =>
      match Huff.Feed(t, path, CodeBits(8, octet))
      case None => Refused(false)
      case Some(fed) =>
        if remaining > 1 then Going(Payload(remaining - 1, Huffman(fed.path)), fed.out)
        else if Huff.Padding(fed.path) then Complete(fed.out)
        else Refused(false)
  }

  // ----- reading from the front of a longer input

  /** The text a string in progress ends with, and how many more octets it takes. */
  function Read(t: Tree, literal: Literal, octets: seq<byte>): Option<(seq<byte>, nat)>
    decreases |octets|, 0
  {
    if octets == [] then None else Resume(t, Next(t, literal, octets[0]), octets[1..])
  }

  function Resume(t: Tree, step: Step, octets: seq<byte>): Option<(seq<byte>, nat)>
    decreases |octets|, 1
  {
    match step
    case Refused(_) => None
    case Complete(out) => Some((out, 1))
    case Going(next, out) => Behind(Read(t, next, octets), out)
  }

  function ReadFrom(t: Tree, octets: seq<byte>, maximum: nat): Option<(seq<byte>, nat)> {
    if octets == [] then None else Resume(t, Start(octets[0], maximum), octets[1..])
  }

  function Decoded(t: Tree, payload: seq<byte>, huffman: bool): Option<seq<byte>> {
    if huffman then Huff.Decode(t, payload) else Some(payload)
  }

  /** The payload of that length behind the first n octets. */
  function AfterLength(t: Tree, n: nat, length: nat, huffman: bool, octets: seq<byte>): Option<(seq<byte>, nat)> {
    if n + length > |octets| then None
    else match Decoded(t, octets[n..n + length], huffman)
      case None => None
      case Some(text) => Some((text, n + length))
  }

  /** A string at the front of `octets`: its text and how many octets it occupies. */
  function Parse(t: Tree, octets: seq<byte>): Option<(seq<byte>, nat)> {
    match Int.Parse(octets, 7)
    case None => None
    case Some((length, n)) => AfterLength(t, n, length, octets[0] >= 128, octets)
  }

  /** One octet in front, with nothing read from it. */
  function Behind(read: Option<(seq<byte>, nat)>, out: seq<byte>): Option<(seq<byte>, nat)> {
    match read case None => None case Some((text, n)) => Some((out + text, n + 1))
  }

  lemma SliceOfTail(octets: seq<byte>, from: nat, to: nat)
    requires from <= to < |octets|
    ensures octets[1..][from..to] == octets[from + 1..to + 1]
  {
    var a, b := octets[1..][from..to], octets[from + 1..to + 1];
    assert |a| == |b|;
    forall i | 0 <= i < |a| ensures a[i] == b[i] {
      assert a[i] == octets[1..][from + i];
    }
  }

  lemma AfterLengthBehind(t: Tree, n: nat, length: nat, huffman: bool, octets: seq<byte>)
    requires octets != []
    ensures AfterLength(t, n + 1, length, huffman, octets) ==
              Behind(AfterLength(t, n, length, huffman, octets[1..]), [])
  {
    if n + 1 + length <= |octets| {
      var payload := octets[n + 1..n + 1 + length];
      SliceOfTail(octets, n, n + length);
      match Decoded(t, payload, huffman)
      case None =>
      case Some(text) => assert [] + text == text;
    }
  }

  lemma {:induction false} ReadRaw(t: Tree, remaining: nat, octets: seq<byte>)
    requires remaining > 0
    ensures Read(t, Payload(remaining, Raw), octets) ==
            if remaining <= |octets| then Some((octets[..remaining], remaining)) else None
    decreases |octets|
  {
    if octets != [] && remaining > 1 {
      ReadRaw(t, remaining - 1, octets[1..]);
      if remaining <= |octets| {
        assert [octets[0]] + octets[1..][..remaining - 1] == octets[..remaining];
      }
    } else if octets != [] {
      assert [octets[0]] == octets[..1];
    }
  }

  lemma {:induction false} ReadHuffman(t: Tree, remaining: nat, path: Bits, octets: seq<byte>)
    requires remaining > 0
    ensures Read(t, Payload(remaining, Huffman(path)), octets) ==
            if remaining > |octets| then None
            else match Huff.Feed(t, path, Huff.OctetBits(octets[..remaining]))
              case None => None
              case Some(fed) => if Huff.Padding(fed.path) then Some((fed.out, remaining)) else None
    decreases |octets|
  {
    if octets != [] {
      var first := CodeBits(8, octets[0]);
      if remaining > 1 {
        if Huff.Feed(t, path, first).Some? {
          ReadHuffman(t, remaining - 1, Huff.Feed(t, path, first).value.path, octets[1..]);
        }
        if remaining <= |octets| {
          var payload := octets[..remaining];
          assert payload[0] == octets[0] && payload[1..] == octets[1..][..remaining - 1];
          Huff.FeedAppend(t, path, first, Huff.OctetBits(payload[1..]));
        }
      } else {
        assert octets[..1] == [octets[0]] && octets[..1][1..] == [];
        assert first + [] == first;
      }
    }
  }

  lemma ReadOpened(t: Tree, length: nat, huffman: bool, octets: seq<byte>)
    ensures length == 0 ==>
              Opened(length, huffman) == Complete([]) && AfterLength(t, 0, 0, huffman, octets) == Some(([], 0))
    ensures length > 0 ==>
              && Opened(length, huffman).Going? && Opened(length, huffman).out == []
              && Read(t, Opened(length, huffman).literal, octets) == AfterLength(t, 0, length, huffman, octets)
  {
    if length == 0 {
      assert octets[0..0] == [];
      assert Huff.Ones(0) == [];
    } else {
      if length <= |octets| { assert octets[0..length] == octets[..length]; }
      if huffman {
        ReadHuffman(t, length, [], octets);
      } else {
        ReadRaw(t, length, octets);
      }
    }
  }

  /** The octet that completes the length leaves exactly the declared payload to read. */
  lemma ReadAfter(t: Tree, length: nat, huffman: bool, octets: seq<byte>)
    requires octets != []
    ensures AfterLength(t, 1, length, huffman, octets) == Resume(t, Opened(length, huffman), octets[1..])
  {
    ReadOpened(t, length, huffman, octets[1..]);
    AfterLengthBehind(t, 0, length, huffman, octets);
    var empty: seq<byte> := [];
    assert empty + empty == empty;
  }

  /** After the length octets, what is left to read is the declared payload. */
  lemma {:induction false} ReadLength(t: Tree, p: Int.Partial, huffman: bool, octets: seq<byte>)
    ensures Read(t, Length(p, huffman), octets) ==
            match Int.Read(p, octets)
            case None => None
            case Some((length, n)) => AfterLength(t, n, length, huffman, octets)
    decreases |octets|
  {
    if octets != [] {
      match Int.Next(p, octets[0])
      case Refused(_) =>
      case Done(length) => ReadAfter(t, length, huffman, octets);
      case More(q) =>
        ReadLength(t, q, huffman, octets[1..]);
        if Int.Read(q, octets[1..]).Some? {
          var (length, n) := Int.Read(q, octets[1..]).value;
          AfterLengthBehind(t, n, length, huffman, octets);
        }
    }
  }

  /** With a budget that covers the whole input, the reader and the grammar agree. */
  lemma ReadIsParse(t: Tree, octets: seq<byte>, maximum: nat)
    requires |octets| <= maximum + 1 && maximum <= U64_MAX
    ensures ReadFrom(t, octets, maximum) == Parse(t, octets)
  {
    Int.ReadIsParse(octets, 7, maximum);
    if octets != [] {
      var huffman := octets[0] >= 128;
      match Int.Start(octets[0], 7, maximum)
      case Refused(_) => if Int.Parse(octets, 7).Some? { Int.ParseUsed(octets, 7); }
      case Done(length) => ReadAfter(t, length, huffman, octets);
      case More(p) =>
        if Int.Parse(octets, 7).Some? { Int.ParseUsed(octets, 7); }
        ReadLength(t, p, huffman, octets[1..]);
        if Int.Read(p, octets[1..]).Some? {
          var (length, n) := Int.Read(p, octets[1..]).value;
          AfterLengthBehind(t, n, length, huffman, octets);
        }
    }
  }

  /** Only the empty payload spells the empty text: padding never fills an octet. */
  lemma EmptyText(t: Tree, book: Codebook, payload: seq<byte>, huffman: bool)
    requires Huff.Huffman(t, book)
    ensures Decoded(t, payload, huffman) == Some([]) ==> payload == []
  {
    if huffman && Decoded(t, payload, huffman) == Some([]) {
      Huff.AcceptedIff(t, book, payload, []);
      assert exists k :: 0 <= k <= 7 && Huff.OctetBits(payload) == Huff.CodesOf(book, []) + Huff.Ones(k);
      assert |Huff.OctetBits(payload)| <= 7;
    }
  }

  // ----- the reader itself

  datatype Status = Active(literal: Literal) | Whole | Broken

  function StatusAfter(step: Step): Status {
    match step case Going(next, _) => Active(next) case Complete(_) => Whole case Refused(_) => Broken
  }

  class LiteralString {
    const nodes: seq<Trie.Record>
    ghost const tree: Tree
    var length: Int.PrefixedInteger
    var remaining: Option<nat>
    var huffman: Strings.HuffmanString?
    var poisoned: bool

    ghost function Footprint(): set<object> reads this {
      if huffman == null then {this, length} else var h: object := huffman; {this, length, h}
    }

    ghost predicate Valid() reads this, Footprint() {
      && tree.Node? && Depth(tree) <= 30 && Trie.Spells(nodes, 0, tree)
      && length.Valid()
      && (huffman != null ==> huffman.Valid() && huffman.tree == tree && huffman.nodes == nodes)
      && (!poisoned ==>
            && !length.poisoned && (remaining.None? <==> length.View().More?)
            && (huffman != null ==> !huffman.poisoned)
            && (huffman != null && !(remaining.Some? && remaining.value > 0) ==> huffman.path == []))
    }

    ghost function View(): Status reads this, Footprint()
      requires Valid()
    {
      if poisoned then Broken
      else match remaining
        case None => Active(Length(length.View().partial, huffman != null))
        case Some(n) =>
          if n == 0 then Whole else Active(Payload(n, if huffman == null then Raw else Huffman(huffman.path)))
    }

    constructor (first: byte, maximum: nat, nodes: seq<Trie.Record>, ghost tree: Tree)
      requires maximum <= U64_MAX
      requires tree.Node? && Depth(tree) <= 30 && Trie.Spells(nodes, 0, tree)
      ensures Valid() && View() == StatusAfter(Start(first, maximum))
      ensures fresh(Footprint()) && this.tree == tree && this.nodes == nodes
    {
      this.nodes, this.tree := nodes, tree;
      length := new Int.PrefixedInteger(first, 7, maximum);
      huffman := null;
      poisoned := true;
      remaining := None;
      new;
      remaining := length.Value();
      poisoned := length.poisoned;
      if first >= 128 {
        huffman := new Strings.HuffmanString(nodes, tree);
      }
    }

    predicate IsComplete() reads this {
      !poisoned && remaining == Some(0)
    }

    /** `accepts` says whether the sink takes an octet after the ones this octet has already produced. */
    method Push(octet: byte, accepts: seq<byte> -> bool) returns (ok: bool, out: seq<byte>)
      requires Valid()
      modifies Footprint()
      ensures Valid() && Footprint() <= old(Footprint())
      ensures ok == (old(View()).Active? &&
                     var step := Next(tree, old(View()).literal, octet);
                     !step.Refused? && Strings.Admitted(accepts, step.out))
      ensures ok ==> var step := Next(tree, old(View()).literal, octet);
                     out == step.out && View() == StatusAfter(step)
      ensures !ok ==> View() == Broken
      ensures old(View()).Active? ==>
                length.limitExceeded == (Next(tree, old(View()).literal, octet) == Refused(true))
    {
      if poisoned || IsComplete() {
        poisoned := true;
        return false, [];
      }
      if remaining.Some? {
        ok, out := PushPayload(octet, accepts);
      } else {
        ok := PushLength(octet);
        out := [];
      }
    }

    method PushPayload(octet: byte, accepts: seq<byte> -> bool) returns (ok: bool, out: seq<byte>)
      requires Valid() && View().Active? && View().literal.Payload?
      modifies Footprint()
      ensures Valid() && Footprint() <= old(Footprint()) && !length.limitExceeded
      ensures var step := Next(tree, old(View()).literal, octet);
              && ok == (!step.Refused? && Strings.Admitted(accepts, step.out))
              && (ok ==> out == step.out && View() == StatusAfter(step))
      ensures !ok ==> View() == Broken
    {
      var before := remaining.value;
      poisoned := true;
      if huffman != null {
        ok, out := huffman.Push(octet, accepts);
      } else {
        out := [octet];
        assert out[..1] == out;
        ok := accepts(out);
      }
      if !ok {
        return;
      }
      remaining := Some(before - 1);
      if before == 1 && huffman != null {
        ok := huffman.Finish();
        huffman := null;
      }
      poisoned := !ok;
    }

    method PushLength(octet: byte) returns (ok: bool)
      requires Valid() && View().Active? && View().literal.Length?
      modifies Footprint()
      ensures Valid() && Footprint() == old(Footprint())
      ensures var step := Next(tree, old(View()).literal, octet);
              && ok == !step.Refused?
              && (ok ==> step.out == [] && View() == StatusAfter(step))
              && length.limitExceeded == (step == Refused(true))
      ensures !ok ==> View() == Broken
    {
      ghost var p := length.View().partial;
      assert Int.Feed(Int.More(p), [octet]) == Int.Next(p, octet);
      poisoned := true;
      var value;
      ok, value := length.Push(octet);
      if ok {
        remaining := value;
        poisoned := false;
      }
    }
  }
}
