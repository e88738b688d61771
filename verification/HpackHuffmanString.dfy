/** The streaming Huffman decoder over the node array, and the encoder it must undo. */
module HpackHuffmanString {
  import opened Bytes
  import opened HuffmanTree
  import opened HuffmanTrie
  import opened HpackHuffman
  import HpackCodes

  /** A sink takes `out` when it takes every octet of it after the ones before. */
  ghost predicate Admitted(accepts: seq<byte> -> bool, out: seq<byte>) {
    forall k :: 0 < k <= |out| ==> accepts(out[..k])
  }

  /** What one octet does to a string in progress: nothing refused, neither by the code nor the sink. */
  ghost function Pushed(t: Tree, path: Bits, octet: byte, accepts: seq<byte> -> bool): Option<Fed> {
    match Feed(t, path, CodeBits(8, octet))
    case None => None
    case Some(fed) => if Admitted(accepts, fed.out) then Some(fed) else None
  }

  class HuffmanString {
    const nodes: seq<Record>
    ghost const tree: Tree
    var position: nat
    var pendingBits: nat
    var pendingOnes: bool
    var poisoned: bool
    ghost var path: Bits

    /** Unless poisoned, the record at `position` is where the pending bits lead. */
    ghost predicate Valid() reads this {
      && tree.Node? && Depth(tree) <= 30 && Spells(nodes, 0, tree)
      && (!poisoned ==>
            && Walk(tree, path).Some? && Walk(tree, path).value.Node?
            && Spells(nodes, position, Walk(tree, path).value)
            && pendingBits == |path| <= 30
            && pendingOnes == (path == Ones(|path|)))
    }

    constructor (nodes: seq<Record>, ghost tree: Tree)
      requires tree.Node? && Depth(tree) <= 30 && Spells(nodes, 0, tree)
      ensures Valid() && !poisoned && path == [] && this.tree == tree && this.nodes == nodes
    {
      this.nodes, this.tree := nodes, tree;
      position, pendingBits, pendingOnes, poisoned, path := 0, 0, true, false, [];
    }

    /** The record at `position` spells the subtree the pending bits lead to. */
    ghost predicate Here() reads this {
      && Walk(tree, path).Some? && Spells(nodes, position, Walk(tree, path).value)
      && pendingBits == |path| <= 30 && pendingOnes == (path == Ones(|path|))
    }

    /** One bit down; there always is a child. */
    method Descend(branch: bool)
      requires Depth(tree) <= 30 && Here() && Walk(tree, path).value.Node?
      modifies this
      ensures Here() && path == old(path) + [branch] && poisoned == old(poisoned)
    {
      hide Depth, Ones;
      ghost var here := Walk(tree, path).value;
      ghost var there := if branch then here.one else here.zero;
      WalkAppend(tree, path, [branch]);
      assert Walk(here, [branch]) == Some(there);
      WalkDepth(tree, path + [branch]);
      assert Spells(nodes, nodes[position].Child(branch), there);
      position := nodes[position].Child(branch);
      assert position != 0;
      pendingBits := pendingBits + 1;
      OnesExtend(path, branch);
      pendingOnes := pendingOnes && branch;
      path := path + [branch];
    }

    method Push(octet: byte, accepts: seq<byte> -> bool) returns (ok: bool, out: seq<byte>)
      requires Valid()
      modifies this
      ensures Valid()
      ensures ok == (!old(poisoned) && Pushed(tree, old(path), octet, accepts).Some?)
      ensures ok ==> !poisoned && Pushed(tree, old(path), octet, accepts) == Some(Fed(out, path))
      ensures !ok ==> poisoned
    {
      hide Feed, CodeBits, Pow2, Depth, Ones;
      ok, out := false, [];
      if poisoned {
        return;
      }
      poisoned := true;
      ghost var start, bits := path, CodeBits(8, octet);
      FedNothing(tree, start, bits);
      var bit: nat := 8;
      while bit > 0
        invariant bit <= 8 && poisoned && Admitted(accepts, out)
        invariant Feed(tree, start, bits[..8 - bit]) == Some(Fed(out, path))
        invariant Here() && Walk(tree, path).value.Node?
      {
        bit := bit - 1;
        var branch := octet / Pow2(bit) % 2 == 1;
        BitAt(8, octet, bit);
        OneMore(tree, start, bits, 7 - bit, out, path);
        Descend(branch);
        var symbol := nodes[position].symbol;
        if symbol == NO_SYMBOL {
          assert out + [] == out;
        } else {
          if symbol >= EOS {
            return;
          }
          if !accepts(out + [symbol]) {
            NotAdmitted(tree, start, bits, 8 - bit, accepts, out, symbol);
            return;
          }
          AdmitOne(accepts, out, symbol);
          out := out + [symbol];
          position, pendingBits, pendingOnes, path := 0, 0, true, [];
          NoBits(tree);
        }
      }
      assert bits[..8] == bits;
      poisoned := false;
      ok := true;
    }

    method Finish() returns (ok: bool)
      requires Valid()
      ensures ok == (!poisoned && Padding(path))
    {
      ok := !poisoned && pendingBits <= 7 && pendingOnes;
    }
  }

  lemma FedNothing(t: Tree, path: Bits, bits: Bits)
    ensures Feed(t, path, bits[..0]) == Some(Fed([], path))
  {
  }

  lemma NoBits(t: Tree)
    ensures Walk(t, []) == Some(t) && Ones(0) == []
  {
  }

  /** One more bit of an octet: what the decoder has after it, or that the octet is refused. */
  lemma OneMore(t: Tree, start: Bits, bits: Bits, k: nat, out: seq<byte>, path: Bits)
    requires k < |bits| && Feed(t, start, bits[..k]) == Some(Fed(out, path))
    ensures match Walk(t, path + [bits[k]])
            case None => Feed(t, start, bits).None?
            case Some(Node(_, _)) => Feed(t, start, bits[..k + 1]) == Some(Fed(out + [], path + [bits[k]]))
            case Some(Leaf(s)) =>
              if s >= EOS then Feed(t, start, bits).None?
              else Feed(t, start, bits[..k + 1]) == Some(Fed(out + [s], []))
  {
    var one := [bits[k]];
    assert bits[..k + 1] == bits[..k] + one && bits == bits[..k + 1] + bits[k + 1..];
    FeedAppend(t, start, bits[..k], one);
    FeedAppend(t, start, bits[..k + 1], bits[k + 1..]);
    assert one[1..] == [] && one[0] == bits[k];
    assert Feed(t, path + one, one[1..]) == Some(Fed([], path + one));
    assert Feed(t, [], one[1..]) == Some(Fed([], []));
    match Walk(t, path + one)
    case Some(Leaf(s)) => if s < EOS { assert [s] + [] == [s]; }
    case _ =>
  }

  lemma OnesExtend(path: Bits, bit: bool)
    ensures (path + [bit] == Ones(|path| + 1)) == (path == Ones(|path|) && bit)
  {
    var next := path + [bit];
    if next == Ones(|path| + 1) {
      assert path == next[..|path|] && next[|path|] == bit;
    }
  }

  lemma AdmitOne(accepts: seq<byte> -> bool, out: seq<byte>, s: byte)
    requires Admitted(accepts, out) && accepts(out + [s])
    ensures Admitted(accepts, out + [s])
  {
    var more := out + [s];
    forall k | 0 < k <= |more| ensures accepts(more[..k]) {
      if k <= |out| { assert more[..k] == out[..k]; } else { assert more[..k] == more; }
    }
  }

  /** A refused octet stays refused however the string goes on. */
  lemma NotAdmitted(t: Tree, start: Bits, bits: Bits, k: nat, accepts: seq<byte> -> bool, out: seq<byte>, s: byte)
    requires k <= |bits| && Feed(t, start, bits[..k]) == Some(Fed(out + [s], []))
    requires !accepts(out + [s])
    ensures match Feed(t, start, bits) case None => true case Some(fed) => !Admitted(accepts, fed.out)
  {
    assert bits == bits[..k] + bits[k..];
    FeedAppend(t, start, bits[..k], bits[k..]);
    match Feed(t, start, bits)
    case None =>
    case Some(fed) => assert fed.out[..|out| + 1] == out + [s];
  }

  // ----- the encoder

  lemma {:induction false} OctetBitsAppend(a: seq<byte>, b: seq<byte>)
    ensures OctetBits(a + b) == OctetBits(a) + OctetBits(b)
  {
    if a == [] {
      assert a + b == b;
    } else {
      OctetBitsAppend(a[1..], b);
      assert (a + b)[0] == a[0] && (a + b)[1..] == a[1..] + b;
    }
  }

  lemma {:induction false} CodesOfAppend(book: Codebook, a: seq<byte>, b: seq<byte>)
    requires |book| == EOS + 1
    ensures CodesOf(book, a + b) == CodesOf(book, a) + CodesOf(book, b)
  {
    hide SymbolBits;
    if a == [] {
      assert a + b == b;
    } else {
      var first, rest := SymbolBits(book, a[0]), CodesOf(book, a[1..]);
      assert (a + b)[0] == a[0] && (a + b)[1..] == a[1..] + b;
      CodesOfAppend(book, a[1..], b);
      assert first + (rest + CodesOf(book, b)) == first + rest + CodesOf(book, b);
    }
  }

  /** Bits still to be packed into an octet. */
  class BitPacker {
    var output: seq<byte>
    var pending: nat
    var length: nat

    ghost predicate Valid() reads this {
      length < 8 && pending < Pow2(length)
    }

    ghost function Bits(): Bits reads this {
      OctetBits(output) + CodeBits(length, pending)
    }

    constructor ()
      ensures Valid() && Bits() == []
    {
      output, pending, length := [], 0, 0;
    }

    method Put(bit: bool)
      requires Valid()
      modifies this
      ensures Valid() && Bits() == old(Bits()) + [bit]
    {
      OneBitMore(length, pending, bit);
      pending := 2 * pending + if bit then 1 else 0;
      length := length + 1;
      assert OctetBits(output) + CodeBits(length, pending) == old(Bits()) + [bit];
      if length == 8 {
        assert Pow2(8) == 256;
        OctetBitsAppend(output, [pending]);
        assert OctetBits([pending]) == CodeBits(8, pending) + OctetBits([]);
        output := output + [pending];
        pending, length := 0, 0;
        assert Bits() == OctetBits(output);
      }
    }

    /** The bits of a code, highest first. */
    method PutCode(size: nat, code: nat)
      requires Valid()
      modifies this
      ensures Valid() && Bits() == old(Bits()) + CodeBits(size, code)
    {
      hide CodeBits, OctetBits, Pow2, Bits, Valid;
      ghost var before, bits := Bits(), CodeBits(size, code);
      assert before + bits[..0] == before;
      for bit := size downto 0
        invariant Valid() && Bits() == before + bits[..size - bit]
      {
        BitAt(size, code, bit);
        Put(code / Pow2(bit) % 2 == 1);
        assert bits[..size - bit] == bits[..size - bit - 1] + [bits[size - bit - 1]];
      }
      assert bits[..size] == bits;
    }

    /** Fills the last octet with one-bits. */
    method Flush() returns (octets: seq<byte>)
      requires Valid()
      ensures exists k :: 0 <= k <= 7 && OctetBits(octets) == Bits() + Ones(k)
    {
      octets := output;
      if length != 0 {
        var room := 8 - length;
        var last := pending * Pow2(room) + Pow2(room) - 1;
        LastOctet(length, pending, room);
        octets := output + [last];
        OctetBitsAppend(output, [last]);
        assert OctetBits([last]) == CodeBits(8, last) + OctetBits([]);
        assert OctetBits(octets) == Bits() + Ones(room);
      } else {
        assert OctetBits(octets) == Bits() + Ones(0);
      }
    }
  }

  lemma {:induction false} LastOctet(length: nat, pending: nat, room: nat)
    requires pending < Pow2(length)
    ensures pending * Pow2(room) + Pow2(room) - 1 < Pow2(length + room)
    ensures CodeBits(length + room, pending * Pow2(room) + Pow2(room) - 1) == CodeBits(length, pending) + Ones(room)
    decreases room
  {
    hide CodesOf, SymbolBits, OctetBits, Walk;
    if room == 0 {
      assert CodeBits(length, pending) + Ones(0) == CodeBits(length, pending);
    } else {
      LastOctet(length, pending, room - 1);
      var less := pending * Pow2(room - 1) + Pow2(room - 1) - 1;
      assert 2 * less + 1 == pending * Pow2(room) + Pow2(room) - 1;
      OneBitMore(length + room - 1, less, true);
      assert Ones(room - 1) + [true] == Ones(room);
    }
  }

  lemma OneCode(book: Codebook, octet: byte)
    requires |book| == EOS + 1
    ensures CodesOf(book, [octet]) == CodeBits(book[octet].0, book[octet].1)
  {
    assert CodesOf(book, [octet]) == SymbolBits(book, octet) + CodesOf(book, []);
  }

  method Encode(book: Codebook, text: seq<byte>) returns (octets: seq<byte>)
    requires |book| == EOS + 1
    ensures exists k :: 0 <= k <= 7 && OctetBits(octets) == CodesOf(book, text) + Ones(k)
  {
    hide BitPacker.Bits, BitPacker.Valid, CodeBits;
    var packer := new BitPacker();
    for i := 0 to |text|
      invariant packer.Valid() && packer.Bits() == CodesOf(book, text[..i])
      invariant fresh(packer)
    {
      var (size, code) := book[text[i]];
      packer.PutCode(size, code);
      assert text[..i + 1] == text[..i] + [text[i]];
      CodesOfAppend(book, text[..i], [text[i]]);
      OneCode(book, text[i]);
    }
    assert text[..|text|] == text;
    octets := packer.Flush();
  }

  /** One octet more of a string that has been fed so far. */
  lemma FeedOctet(t: Tree, octets: seq<byte>, i: nat, out: seq<byte>, path: Bits)
    requires i < |octets| && Feed(t, [], OctetBits(octets[..i])) == Some(Fed(out, path))
    ensures match Feed(t, path, CodeBits(8, octets[i]))
            case None => Feed(t, [], OctetBits(octets)).None?
            case Some(fed) => Feed(t, [], OctetBits(octets[..i + 1])) == Some(Fed(out + fed.out, fed.path))
  {
    var before, one, rest := octets[..i], [octets[i]], octets[i + 1..];
    assert octets[..i + 1] == before + one && octets == before + one + rest;
    OctetBitsAppend(before, one);
    OctetBitsAppend(before + one, rest);
    assert OctetBits(one) == CodeBits(8, octets[i]) by {
      assert one[1..] == [] && CodeBits(8, octets[i]) + [] == CodeBits(8, octets[i]);
    }
    FeedAppend(t, [], OctetBits(before), OctetBits(one));
    FeedAppend(t, [], OctetBits(before + one), OctetBits(rest));
  }

  /** The array built from a codebook, every octet pushed through it, and the end of the string. */
  method DecodeBuilt(book: Codebook, ghost t: Tree, octets: seq<byte>) returns (text: Option<seq<byte>>)
    requires Huffman(t, book)
    ensures text == Decode(t, octets)
  {
    var nodes := Build(book, t);
    var decoder := new HuffmanString(nodes[..], t);
    var accepts := (out: seq<byte>) => true;
    var out: seq<byte> := [];
    for i := 0 to |octets|
      invariant decoder.Valid() && !decoder.poisoned && decoder.tree == t && fresh(decoder)
      invariant Feed(t, [], OctetBits(octets[..i])) == Some(Fed(out, decoder.path))
    {
      FeedOctet(t, octets, i, out, decoder.path);
      var ok, more := decoder.Push(octets[i], accepts);
      if !ok {
        return None;
      }
      out := out + more;
    }
    assert octets[..|octets|] == octets;
    var ok := decoder.Finish();
    text := if ok then Some(out) else None;
  }

  /**
   * For every octet string: encoding it with the published code and decoding the result through the array
   * built from that code gives it back.
   */
  method RoundTrip(text: seq<byte>) returns (octets: seq<byte>, back: Option<seq<byte>>)
    ensures Decode(HpackTree(), octets) == Some(text) && back == Some(text)
  {
    var book := HpackCodes.Book();
    octets := Encode(book, text);
    AcceptedIff(HpackTree(), book, octets, text);
    back := DecodeBuilt(book, HpackTree(), octets);
  }
}
