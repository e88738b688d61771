/**
 * Huffman strings (section 5.2 of RFC 7541): what an encoded string means, and the bit-by-bit
 * decoder over any codebook that a full tree draws.
 */
module HpackHuffman {
  import opened Bytes
  import opened HuffmanTree
  import HpackCodes

  /** A codebook for all octets and an end-of-string symbol of thirty one-bits, with its tree. */
  ghost predicate Huffman(t: Tree, book: Codebook) {
    && Draws(t, book)
    && Depth(t) <= 30
    && |book| == EOS + 1
    && book[EOS] == (30, Pow2(30) - 1)
  }

  lemma HpackTreeExists()
    ensures exists t :: Huffman(t, HpackCodes.Book())
  {
    var t := HpackCodes.WholeTree();
    assert HpackCodes.Code(256) == (30, 0x3fffffff);
    assert Pow2(30) == 0x4000_0000 by { assert Pow2(15) == 0x8000; Pow2Sum(15, 15); }
    assert Huffman(t, HpackCodes.Book());
  }

  ghost function HpackTree(): (t: Tree)
    ensures Huffman(t, HpackCodes.Book())
  {
    HpackTreeExists();
    var t :| Huffman(t, HpackCodes.Book());
    t
  }

  // ----- what octets mean

  function OctetBits(octets: seq<byte>): Bits {
    if octets == [] then [] else CodeBits(8, octets[0]) + OctetBits(octets[1..])
  }

  function CodesOf(book: Codebook, text: seq<byte>): Bits
    requires |book| == EOS + 1
  {
    if text == [] then [] else SymbolBits(book, text[0]) + CodesOf(book, text[1..])
  }

  function Ones(k: nat): (bits: Bits)
    ensures |bits| == k && forall i :: 0 <= i < k ==> bits[i]
  {
    seq(k, _ => true)
  }

  // ----- the decoder: a path from the root, and the octets emitted on the way

  datatype Fed = Fed(out: seq<byte>, path: Bits)

  function Feed(t: Tree, path: Bits, bits: Bits): Option<Fed>
    decreases |bits|
  {
    if bits == [] then Some(Fed([], path))
    else match Walk(t, path + [bits[0]])
      case None => None
      case Some(Node(_, _)) => Feed(t, path + [bits[0]], bits[1..])
      case Some(Leaf(s)) =>
        if s >= EOS then None
        else match Feed(t, [], bits[1..])
          case None => None
          case Some(fed) => Some(Fed([s] + fed.out, fed.path))
  }

  /** At the end of a string only zero to seven one-bits may be pending. */
  predicate Padding(path: Bits) {
    |path| <= 7 && path == Ones(|path|)
  }

  function Decode(t: Tree, octets: seq<byte>): Option<seq<byte>> {
    match Feed(t, [], OctetBits(octets))
    case None => None
    case Some(fed) => if Padding(fed.path) then Some(fed.out) else None
  }

  lemma {:induction false} FeedAppend(t: Tree, path: Bits, a: Bits, b: Bits)
    ensures Feed(t, path, a + b) ==
            match Feed(t, path, a)
            case None => None
            case Some(fed) =>
              match Feed(t, fed.path, b)
              case None => None
              case Some(more) => Some(Fed(fed.out + more.out, more.path))
    decreases |a|
  {
    if a == [] {
      assert a + b == b;
      match Feed(t, path, b)
      case None =>
      case Some(more) => assert [] + more.out == more.out;
    } else {
      assert (a + b)[0] == a[0] && (a + b)[1..] == a[1..] + b;
      match Walk(t, path + [a[0]])
      case None =>
      case Some(Node(_, _)) => FeedAppend(t, path + [a[0]], a[1..], b);
      case Some(Leaf(s)) =>
        if s < EOS {
          FeedAppend(t, [], a[1..], b);
          match Feed(t, [], a[1..])
          case None =>
          case Some(fed) =>
            match Feed(t, fed.path, b)
            case None =>
            case Some(more) => assert [s] + (fed.out + more.out) == [s] + fed.out + more.out;
        }
    }
  }

  /** What was read is what was emitted, encoded, followed by the pending path. */
  lemma {:induction false} FeedSound(t: Tree, book: Codebook, path: Bits, bits: Bits)
    requires Huffman(t, book) && Walk(t, path).Some? && Walk(t, path).value.Node?
    requires Feed(t, path, bits).Some?
    ensures var fed := Feed(t, path, bits).value;
            && path + bits == CodesOf(book, fed.out) + fed.path
            && Walk(t, fed.path).Some? && Walk(t, fed.path).value.Node?
    decreases |bits|
  {
    if bits == [] {
      assert path + bits == [] + path;
    } else {
      var next := path + [bits[0]];
      assert path + bits == next + bits[1..];
      match Walk(t, next)
      case Some(Node(_, _)) => FeedSound(t, book, next, bits[1..]);
      case Some(Leaf(s)) =>
        FeedSound(t, book, [], bits[1..]);
        LeavesAreCodes(book, t, next, s);
        var rest := Feed(t, [], bits[1..]).value;
        var fed := Feed(t, path, bits).value;
        assert fed.out[0] == s && fed.out[1..] == rest.out;
        assert [] + bits[1..] == bits[1..];
        assert next + (CodesOf(book, rest.out) + rest.path) == next + CodesOf(book, rest.out) + rest.path;
    }
  }

  /** A code's bits, from any point inside it, lead to the emission of its symbol. */
  lemma {:induction false} FeedSymbol(t: Tree, book: Codebook, s: byte, path: Bits, rest: Bits, more: Bits)
    requires Huffman(t, book) && path + rest == SymbolBits(book, s) && rest != []
    ensures Feed(t, path, rest + more) ==
            match Feed(t, [], more) case None => None case Some(fed) => Some(Fed([s] + fed.out, fed.path))
    decreases |rest|
  {
    var next := path + [rest[0]];
    var bits := rest + more;
    LeavesAreCodes(book, t, path + rest, s);
    assert bits[0] == rest[0] && bits[1..] == rest[1..] + more;
    assert path + rest == next + rest[1..];
    WalkAppend(t, next, rest[1..]);
    if rest[1..] == [] {
      assert next == path + rest && rest[1..] + more == more;
    } else {
      FeedSymbol(t, book, s, next, rest[1..], more);
    }
  }

  lemma CodeNotEmpty(t: Tree, book: Codebook, s: byte)
    requires Huffman(t, book)
    ensures SymbolBits(book, s) != []
  {
    LeavesAreCodes(book, t, [], s);
  }

  /** Encoded text followed by any path inside the tree decodes to the text and that path. */
  lemma {:induction false} FeedComplete(t: Tree, book: Codebook, text: seq<byte>, path: Bits)
    requires Huffman(t, book) && Walk(t, path).Some? && Walk(t, path).value.Node?
    ensures Feed(t, [], CodesOf(book, text) + path) == Some(Fed(text, path))
    decreases |text|
  {
    if text == [] {
      assert [] + path == path;
      FeedInside(t, [], path);
    } else {
      var code := SymbolBits(book, text[0]);
      var more := CodesOf(book, text[1..]) + path;
      assert CodesOf(book, text) + path == code + more;
      assert [] + code == code;
      CodeNotEmpty(t, book, text[0]);
      FeedSymbol(t, book, text[0], [], code, more);
      FeedComplete(t, book, text[1..], path);
      assert [text[0]] + text[1..] == text;
    }
  }

  lemma {:induction false} FeedInside(t: Tree, path: Bits, rest: Bits)
    requires Walk(t, path + rest).Some? && Walk(t, path + rest).value.Node?
    ensures Feed(t, path, rest) == Some(Fed([], path + rest))
    decreases |rest|
  {
    if rest == [] {
      assert path + rest == path;
    } else {
      var next := path + [rest[0]];
      assert path + rest == next + rest[1..];
      WalkAppend(t, next, rest[1..]);
      FeedInside(t, next, rest[1..]);
    }
  }

  lemma {:induction false} AllOnes(k: nat)
    ensures CodeBits(k, Pow2(k) - 1) == Ones(k)
  {
    if k > 0 {
      AllOnes(k - 1);
      OneBitMore(k - 1, Pow2(k - 1) - 1, true);
      assert Ones(k - 1) + [true] == Ones(k);
    }
  }

  /** Up to seven one-bits never complete a symbol: they begin the end-of-string code. */
  lemma PaddingIsInside(t: Tree, book: Codebook, k: nat)
    requires Huffman(t, book) && k <= 7
    ensures Walk(t, Ones(k)).Some? && Walk(t, Ones(k)).value.Node?
  {
    OnesInside(t, book, 30, k);
  }

  lemma OnesInside(t: Tree, book: Codebook, n: nat, k: nat)
    requires Draws(t, book) && |book| == EOS + 1 && book[EOS] == (n, Pow2(n) - 1) && k < n
    ensures Walk(t, Ones(k)).Some? && Walk(t, Ones(k)).value.Node?
  {
    AllOnes(n);
    LeavesAreCodes(book, t, Ones(n), EOS);
    assert Ones(n) == Ones(k) + Ones(n - k);
    WalkAppend(t, Ones(k), Ones(n - k));
  }

  /**
   * A string is accepted exactly when its bits are the codes of the text followed by zero to seven
   * one-bits, and then it is accepted as that text.
   */
  lemma AcceptedIff(t: Tree, book: Codebook, octets: seq<byte>, text: seq<byte>)
    requires Huffman(t, book)
    ensures Decode(t, octets) == Some(text) <==>
            exists k :: 0 <= k <= 7 && OctetBits(octets) == CodesOf(book, text) + Ones(k)
  {
    PaddingIsInside(t, book, 0);
    assert Ones(0) == [];
    if Decode(t, octets) == Some(text) {
      FeedSound(t, book, [], OctetBits(octets));
      assert [] + OctetBits(octets) == OctetBits(octets);
      var path := Feed(t, [], OctetBits(octets)).value.path;
      assert OctetBits(octets) == CodesOf(book, text) + Ones(|path|);
    }
    if k :| 0 <= k <= 7 && OctetBits(octets) == CodesOf(book, text) + Ones(k) {
      PaddingIsInside(t, book, k);
      FeedComplete(t, book, text, Ones(k));
    }
  }
}
