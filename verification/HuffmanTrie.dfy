/**
 * The node array a codebook is compiled into: the nested loops that fill it, and the proof that
 * what they leave behind is the codebook's tree, node for node, with no cell to spare.
 */
module HuffmanTrie {
  import opened Bytes
  import opened HuffmanTree

  const NO_SYMBOL: nat := 65535

  /** A child of 0 means there is none yet: nothing points back at the root. */
  datatype Record = Record(zero: nat, one: nat, symbol: nat) {
    function Child(branch: bool): nat {
      if branch then one else zero
    }
    function WithChild(branch: bool, child: nat): Record {
      if branch then this.(one := child) else this.(zero := child)
    }
  }

  /** From `position` on, the records spell the tree `t`. */
  ghost predicate Spells(nodes: seq<Record>, position: nat, t: Tree)
    decreases t
  {
    && position < |nodes|
    && match t
       case Leaf(s) => nodes[position].symbol == s != NO_SYMBOL
       case Node(l, r) =>
         && nodes[position].symbol == NO_SYMBOL
         && nodes[position].zero != 0 && Spells(nodes, nodes[position].zero, l)
         && nodes[position].one != 0 && Spells(nodes, nodes[position].one, r)
  }

  // ----- counting paths

  function Prepend(bit: bool, paths: set<Bits>): set<Bits> {
    set p | p in paths :: [bit] + p
  }

  function Paths(t: Tree): set<Bits> {
    match t
    case Leaf(_) => {[]}
    case Node(l, r) => {[]} + Prepend(false, Paths(l)) + Prepend(true, Paths(r))
  }

  lemma {:induction false} PrependCount(bit: bool, paths: set<Bits>)
    ensures |Prepend(bit, paths)| == |paths|
    decreases |paths|
  {
    if paths == {} {
      assert Prepend(bit, paths) == {};
    } else {
      var p :| p in paths;
      var rest := paths - {p};
      PrependCount(bit, rest);
      assert Prepend(bit, paths) == Prepend(bit, rest) + {[bit] + p};
      assert [bit] + p !in Prepend(bit, rest) by {
        forall q | q in rest ensures [bit] + q != [bit] + p {
          assert ([bit] + q)[1..] == q && ([bit] + p)[1..] == p;
        }
      }
    }
  }

  /** A full tree of n leaves has 2n - 1 nodes. */
  lemma {:induction false} PathCount(t: Tree)
    ensures |Paths(t)| == 2 * LeafCount(t) - 1
  {
    match t
    case Leaf(_) =>
    case Node(l, r) =>
      PathCount(l);
      PathCount(r);
      PrependCount(false, Paths(l));
      PrependCount(true, Paths(r));
      var a, b := Prepend(false, Paths(l)), Prepend(true, Paths(r));
      assert a !! b by {
        forall p | p in a ensures p !in b {
          assert !p[0];
        }
      }
      assert {[]} !! (a + b);
      assert |{[]} + (a + b)| == 1 + (|a| + |b|);
      assert {[]} + a + b == {[]} + (a + b);
  }

  lemma {:induction false} PathIff(t: Tree, path: Bits)
    ensures path in Paths(t) <==> Walk(t, path).Some?
  {
    match t
    case Leaf(_) =>
    case Node(l, r) =>
      if path != [] {
        PathIff(l, path[1..]);
        PathIff(r, path[1..]);
        assert path == [path[0]] + path[1..];
        forall p | [path[0]] + p == path ensures p == path[1..] {
          assert p == ([path[0]] + p)[1..];
        }
      }
  }

  // ----- a partly filled array

  function Parent(path: Bits): Bits
    requires path != []
  {
    path[..|path| - 1]
  }

  /** Which record a path leads to, and which path leads to a record. */
  datatype Layout = Layout(at: map<Bits, nat>, paths: seq<Bits>) {
    /** The path below `path` in direction `b` gets the next free record. */
    function Grown(path: Bits): Layout {
      Layout(at[path := |paths|], paths + [path])
    }
  }

  /** The first |paths| records are in use; the symbols below `done` have been entered. */
  ghost predicate Trie(nodes: seq<Record>, lay: Layout, t: Tree, book: Codebook, done: nat)
    requires done <= |book|
  {
    && |lay.at| == |lay.paths| <= |nodes|
    && [] in lay.at && lay.at[[]] == 0
    && (forall p {:trigger Placed(nodes, lay, t, book, done, p)} :: p in lay.at ==>
          Placed(nodes, lay, t, book, done, p))
    && (forall k :: |lay.paths| <= k < |nodes| ==> nodes[k] == Record(0, 0, NO_SYMBOL))
    && (forall s :: 0 <= s < done ==> Entered(lay, SymbolBits(book, s)))
  }

  ghost predicate Placed(nodes: seq<Record>, lay: Layout, t: Tree, book: Codebook, done: nat, p: Bits)
    requires |lay.paths| <= |nodes| && done <= |book| && p in lay.at
  {
    && lay.at[p] < |lay.paths| && lay.paths[lay.at[p]] == p
    && Walk(t, p).Some?
    && (p != [] ==> Parent(p) in lay.at)
    && Linked(nodes, lay, p, false) && Linked(nodes, lay, p, true)
    && Marked(nodes[lay.at[p]].symbol, book, done, p)
  }

  ghost predicate Linked(nodes: seq<Record>, lay: Layout, p: Bits, b: bool)
    requires p in lay.at && lay.at[p] < |nodes|
  {
    var child := nodes[lay.at[p]].Child(b);
    if child == 0 then p + [b] !in lay.at else p + [b] in lay.at && lay.at[p + [b]] == child
  }

  /** A record carries a symbol exactly when its path is that symbol's code. */
  ghost predicate Marked(symbol: nat, book: Codebook, done: nat, p: Bits)
    requires done <= |book|
  {
    if symbol == NO_SYMBOL then forall s :: 0 <= s < done ==> SymbolBits(book, s) != p
    else symbol < done && SymbolBits(book, symbol) == p
  }

  ghost predicate Entered(lay: Layout, bits: Bits) {
    forall n :: 0 <= n <= |bits| ==> bits[..n] in lay.at
  }

  lemma NoMoreThanPaths(at: map<Bits, nat>, t: Tree)
    requires forall p :: p in at ==> Walk(t, p).Some?
    ensures |at| <= 2 * LeafCount(t) - 1
    ensures (forall p :: Walk(t, p).Some? ==> p in at) ==> |at| == 2 * LeafCount(t) - 1
  {
    PathCount(t);
    forall p | p in at.Keys ensures p in Paths(t) { PathIff(t, p); }
    assert Paths(t) == at.Keys + (Paths(t) - at.Keys);
    if forall p :: Walk(t, p).Some? ==> p in at {
      forall p | p in Paths(t) ensures p in at.Keys { PathIff(t, p); }
      assert at.Keys == Paths(t);
    }
  }

  lemma StepsDiffer(p: Bits, b: bool, q: Bits, c: bool)
    ensures p + [b] == q + [c] ==> p == q && b == c
    ensures Parent(p + [b]) == p
  {
    assert (p + [b])[|p|] == b && (q + [c])[|q|] == c;
    assert (p + [b])[..|p|] == p && (q + [c])[..|q|] == q;
  }

  /** A new record for a path of the tree that had none. */
  lemma Grow(nodes: seq<Record>, lay: Layout, t: Tree, book: Codebook, done: nat, p: Bits, b: bool)
    requires done < |book| && Trie(nodes, lay, t, book, done)
    requires p in lay.at && lay.at[p] < |nodes| && nodes[lay.at[p]].Child(b) == 0
    requires Walk(t, p + [b]).Some? && LeafCount(t) == |book| && |nodes| == 2 * |book| - 1
    requires forall s :: 0 <= s < done ==> SymbolBits(book, s) != p + [b]
    ensures |lay.paths| < |nodes|
    ensures Trie(nodes[lay.at[p] := nodes[lay.at[p]].WithChild(b, |lay.paths|)], lay.Grown(p + [b]), t, book, done)
  {
    var k := lay.at[p];
    var grown := lay.Grown(p + [b]);
    assert Placed(nodes, lay, t, book, done, p);
    forall q | q in grown.at ensures Walk(t, q).Some? {
      if q in lay.at { assert Placed(nodes, lay, t, book, done, q); }
    }
    assert grown.at.Keys == lay.at.Keys + {p + [b]};
    NoMoreThanPaths(grown.at, t);
    var after := nodes[k := nodes[k].WithChild(b, |lay.paths|)];
    forall q {:trigger Placed(after, grown, t, book, done, q)} | q in grown.at
        ensures Placed(after, grown, t, book, done, q) {
      GrowPlaced(nodes, lay, t, book, done, p, b, q);
    }
    forall s | 0 <= s < done ensures Entered(grown, SymbolBits(book, s)) {
      assert Entered(lay, SymbolBits(book, s));
    }
  }

  lemma GrowPlaced(nodes: seq<Record>, lay: Layout, t: Tree, book: Codebook, done: nat, p: Bits, b: bool, q: Bits)
    requires done < |book| && Trie(nodes, lay, t, book, done)
    requires p in lay.at && lay.at[p] < |nodes| && nodes[lay.at[p]].Child(b) == 0 && |lay.paths| < |nodes|
    requires Walk(t, p + [b]).Some?
    requires forall s :: 0 <= s < done ==> SymbolBits(book, s) != p + [b]
    requires q in lay.at || q == p + [b]
    ensures Placed(nodes[lay.at[p] := nodes[lay.at[p]].WithChild(b, |lay.paths|)], lay.Grown(p + [b]), t, book, done, q)
  {
    assert Placed(nodes, lay, t, book, done, p);
    assert Linked(nodes, lay, p, b);
    StepsDiffer(p, b, q, false);
    StepsDiffer(p, b, q, true);
    if q in lay.at {
      assert Placed(nodes, lay, t, book, done, q);
    } else {
      StepsDiffer(q, false, p, b);
      StepsDiffer(q, true, p, b);
      assert q + [false] in lay.at ==> Placed(nodes, lay, t, book, done, q + [false]);
      assert q + [true] in lay.at ==> Placed(nodes, lay, t, book, done, q + [true]);
      assert |q + [false]| != |q| && |q + [true]| != |q|;
    }
  }

  /** The symbol goes on the record its code leads to, which carried nothing. */
  lemma Mark(nodes: seq<Record>, lay: Layout, t: Tree, book: Codebook, done: nat)
    requires Draws(t, book) && done < |book| < NO_SYMBOL && Trie(nodes, lay, t, book, done)
    requires Entered(lay, SymbolBits(book, done)) && SymbolBits(book, done) in lay.at
    ensures var k := lay.at[SymbolBits(book, done)];
            && k < |nodes| && nodes[k] == Record(0, 0, NO_SYMBOL)
            && Trie(nodes[k := nodes[k].(symbol := done)], lay, t, book, done + 1)
  {
    var p := SymbolBits(book, done);
    var k := lay.at[p];
    assert Placed(nodes, lay, t, book, done, p);
    LeavesAreCodes(book, t, p, done);
    LeavesAreCodes(book, t, p, nodes[k].symbol);
    Childless(nodes, lay, t, book, done, p, false);
    Childless(nodes, lay, t, book, done, p, true);
    var after, next := nodes[k := nodes[k].(symbol := done)], done + 1;
    forall q {:trigger Placed(after, lay, t, book, next, q)} | q in lay.at
        ensures Placed(after, lay, t, book, next, q) {
      assert Placed(nodes, lay, t, book, done, q);
    }
  }

  lemma Childless(nodes: seq<Record>, lay: Layout, t: Tree, book: Codebook, done: nat, p: Bits, b: bool)
    requires done <= |book| && Trie(nodes, lay, t, book, done) && p in lay.at
    requires Walk(t, p).Some? && Walk(t, p).value.Leaf?
    ensures lay.at[p] < |nodes| && nodes[lay.at[p]].Child(b) == 0
  {
    assert Placed(nodes, lay, t, book, done, p);
    assert Linked(nodes, lay, p, b);
    WalkAppend(t, p, [b]);
    assert p + [b] in lay.at ==> Placed(nodes, lay, t, book, done, p + [b]);
  }

  /** A path strictly inside a code leads to an inner node, which carries no symbol. */
  lemma InsideUnmarked(nodes: seq<Record>, lay: Layout, t: Tree, book: Codebook, done: nat, p: Bits, rest: Bits)
    requires Draws(t, book) && done < |book| && Trie(nodes, lay, t, book, done)
    requires p in lay.at && p + rest == SymbolBits(book, done) && rest != []
    ensures lay.at[p] < |nodes| && nodes[lay.at[p]].symbol == NO_SYMBOL
    ensures Walk(t, p + [rest[0]]).Some?
    ensures forall s :: 0 <= s < done ==> SymbolBits(book, s) != p + [rest[0]]
  {
    LeavesAreCodes(book, t, p + rest, done);
    WalkAppend(t, p, rest);
    var next := p + [rest[0]];
    assert p + rest == next + rest[1..];
    WalkAppend(t, next, rest[1..]);
    assert Placed(nodes, lay, t, book, done, p);
    LeavesAreCodes(book, t, p, nodes[lay.at[p]].symbol);
    forall s | 0 <= s < done ensures SymbolBits(book, s) != next {
      LeavesAreCodes(book, t, next, s);
    }
  }

  // ----- a completely filled array

  lemma {:induction false} SomeSymbol(t: Tree) returns (path: Bits, s: nat)
    ensures Walk(t, path) == Some(Leaf(s))
  {
    match t
    case Leaf(x) => path, s := [], x;
    case Node(l, r) =>
      path, s := SomeSymbol(l);
      path := [false] + path;
  }

  lemma AllPresent(nodes: seq<Record>, lay: Layout, t: Tree, book: Codebook, path: Bits)
    requires Draws(t, book) && Trie(nodes, lay, t, book, |book|) && Walk(t, path).Some?
    ensures path in lay.at
  {
    var rest, s := SomeSymbol(Walk(t, path).value);
    WalkAppend(t, path, rest);
    LeavesAreCodes(book, t, path + rest, s);
    assert Entered(lay, SymbolBits(book, s));
    assert SymbolBits(book, s)[..|path|] == path;
  }

  lemma {:induction false} FilledSpells(nodes: seq<Record>, lay: Layout, t: Tree, book: Codebook, p: Bits)
    requires Draws(t, book) && |book| < NO_SYMBOL && Trie(nodes, lay, t, book, |book|) && p in lay.at
    requires Walk(t, p).Some?
    ensures Spells(nodes, lay.at[p], Walk(t, p).value)
    decreases Walk(t, p).value
  {
    assert Placed(nodes, lay, t, book, |book|, p);
    var record := nodes[lay.at[p]];
    LeavesAreCodes(book, t, p, record.symbol);
    match Walk(t, p).value
    case Leaf(s) =>
      LeavesAreCodes(book, t, p, s);
    case Node(l, r) =>
      Descend(nodes, lay, t, book, p, false);
      Descend(nodes, lay, t, book, p, true);
      FilledSpells(nodes, lay, t, book, p + [false]);
      FilledSpells(nodes, lay, t, book, p + [true]);
  }

  lemma Descend(nodes: seq<Record>, lay: Layout, t: Tree, book: Codebook, p: Bits, b: bool)
    requires Draws(t, book) && Trie(nodes, lay, t, book, |book|) && p in lay.at
    requires Walk(t, p).Some? && Walk(t, p).value.Node?
    ensures lay.at[p] < |nodes| && nodes[lay.at[p]].Child(b) != 0
    ensures p + [b] in lay.at && lay.at[p + [b]] == nodes[lay.at[p]].Child(b)
    ensures Walk(t, p + [b]) == Some(if b then Walk(t, p).value.one else Walk(t, p).value.zero)
  {
    var sub := Walk(t, p).value;
    WalkAppend(t, p, [b]);
    assert Walk(sub, [b]) == Some(if b then sub.one else sub.zero);
    AllPresent(nodes, lay, t, book, p + [b]);
    assert Placed(nodes, lay, t, book, |book|, p);
    assert Linked(nodes, lay, p, b);
  }

  // ----- filling it

  /** The bit of weight 2^bit is the one that many places from the end of a code. */
  lemma {:induction false} BitAt(length: nat, code: nat, bit: nat)
    requires bit < length
    ensures CodeBits(length, code)[length - 1 - bit] == (code / Pow2(bit) % 2 == 1)
  {
    if bit > 0 {
      BitAt(length - 1, code / 2, bit - 1);
      DivDiv(code, Pow2(bit - 1));
    }
  }

  lemma DivDiv(n: nat, p: nat)
    requires p > 0
    ensures n / 2 / p == n / (2 * p)
  {
    var q := n / (2 * p);
    var r := n % (2 * p);
    assert n == 2 * (p * q) + r;
    assert n / 2 == p * q + r / 2;
    QuotientUnique(n / 2, p, q, r / 2);
  }

  lemma QuotientUnique(n: nat, p: nat, q: nat, r: nat)
    requires r < p && n == p * q + r
    ensures n / p == q
  {
    var d := n / p;
    assert n == p * d + n % p;
    if d < q { Times(p, d + 1, q); }
    if d > q { Times(p, q + 1, d); }
  }

  lemma Times(p: nat, a: nat, b: nat)
    requires a <= b
    ensures p * a <= p * b
  {
  }

  /** Enters the path of one code, record by record, and returns where it ends. */
  method Enter(nodes: array<Record>, book: Codebook, symbol: nat, used: nat, ghost t: Tree, ghost lay: Layout)
    returns (position: nat, used': nat, ghost lay': Layout)
    requires Draws(t, book) && symbol < |book|
    requires nodes.Length == 2 * |book| - 1 && used == |lay.paths|
    requires Trie(nodes[..], lay, t, book, symbol)
    modifies nodes
    ensures used' == |lay'.paths| && Trie(nodes[..], lay', t, book, symbol)
    ensures Entered(lay', SymbolBits(book, symbol)) && SymbolBits(book, symbol) in lay'.at
    ensures position == lay'.at[SymbolBits(book, symbol)] < nodes.Length
  {
    var (length, code) := book[symbol];
    ghost var bits := CodeBits(length, code);
    ghost var p: Bits := [];
    var bit: nat := length;
    position, used', lay' := 0, used, lay;
    while bit > 0
      invariant bit <= length && used' == |lay'.paths|
      invariant Trie(nodes[..], lay', t, book, symbol)
      invariant p == bits[..length - bit] && p in lay'.at && lay'.at[p] == position < nodes.Length
      invariant Entered(lay', p)
    {
      ghost var rest := bits[length - bit..];
      assert p + rest == bits;
      InsideUnmarked(nodes[..], lay', t, book, symbol, p, rest);
      assert nodes[position].symbol == NO_SYMBOL;
      bit := bit - 1;
      var branch := code / Pow2(bit) % 2 == 1;
      BitAt(length, code, bit);
      if nodes[position].Child(branch) == 0 {
        used', lay' := Allocate(nodes, position, branch, used', book, symbol, t, lay', p);
      } else {
        assert Placed(nodes[..], lay', t, book, symbol, p);
        assert Linked(nodes[..], lay', p, branch);
      }
      position := nodes[position].Child(branch);
      EnteredStep(lay', p, branch);
      p := p + [branch];
      assert Placed(nodes[..], lay', t, book, symbol, p);
    }
    assert bits[..length] == bits;
  }

  lemma EnteredStep(lay: Layout, p: Bits, b: bool)
    requires Entered(lay, p) && p + [b] in lay.at
    ensures Entered(lay, p + [b])
  {
    forall n | 0 <= n <= |p + [b]| ensures (p + [b])[..n] in lay.at {
      if n <= |p| { assert (p + [b])[..n] == p[..n]; } else { assert (p + [b])[..n] == p + [b]; }
    }
  }

  method Allocate(nodes: array<Record>, position: nat, branch: bool, used: nat,
                  ghost book: Codebook, ghost symbol: nat, ghost t: Tree, ghost lay: Layout, ghost p: Bits)
    returns (used': nat, ghost lay': Layout)
    requires Draws(t, book) && symbol < |book|
    requires nodes.Length == 2 * |book| - 1 && used == |lay.paths|
    requires Trie(nodes[..], lay, t, book, symbol)
    requires p in lay.at && lay.at[p] == position < nodes.Length && nodes[position].Child(branch) == 0
    requires Walk(t, p + [branch]).Some? && Entered(lay, p)
    requires forall s :: 0 <= s < symbol ==> SymbolBits(book, s) != p + [branch]
    modifies nodes
    ensures used' == |lay'.paths| && Trie(nodes[..], lay', t, book, symbol)
    ensures p + [branch] in lay'.at && lay'.at[p + [branch]] == nodes[position].Child(branch)
    ensures Entered(lay', p)
  {
    ghost var before := nodes[..];
    Grow(before, lay, t, book, symbol, p, branch);
    assert used < nodes.Length;
    nodes[position] := nodes[position].WithChild(branch, used);
    assert nodes[..] == before[position := before[position].WithChild(branch, used)];
    used', lay' := used + 1, lay.Grown(p + [branch]);
  }

  /** The whole array: as many records as the tree has nodes, all of them used. */
  method Build(book: Codebook, ghost t: Tree) returns (nodes: array<Record>)
    requires Draws(t, book) && 1 < |book| < NO_SYMBOL
    ensures fresh(nodes) && nodes.Length == 2 * |book| - 1
    ensures Spells(nodes[..], 0, t)
  {
    nodes := new Record[2 * |book| - 1](_ => Record(0, 0, NO_SYMBOL));
    ghost var lay: Layout := Layout(map[[] := 0], [[]]);
    var used := 1;
    var symbol := 0;
    assert [] + [false] != [] && [] + [true] != [];
    assert Placed(nodes[..], lay, t, book, 0, []);
    while symbol < |book|
      invariant 0 <= symbol <= |book| && used == |lay.paths|
      invariant Trie(nodes[..], lay, t, book, symbol)
    {
      var position;
      position, used, lay := Enter(nodes, book, symbol, used, t, lay);
      ghost var before := nodes[..];
      Mark(before, lay, t, book, symbol);
      assert nodes[position].symbol == NO_SYMBOL;
      assert nodes[position].zero == 0 && nodes[position].one == 0;
      nodes[position] := nodes[position].(symbol := symbol);
      assert nodes[..] == before[position := before[position].(symbol := symbol)];
      symbol := symbol + 1;
    }
    forall p | Walk(t, p).Some? ensures p in lay.at { AllPresent(nodes[..], lay, t, book, p); }
    forall p | p in lay.at ensures Walk(t, p).Some? { assert Placed(nodes[..], lay, t, book, |book|, p); }
    NoMoreThanPaths(lay.at, t);
    assert used == nodes.Length;
    FilledSpells(nodes[..], lay, t, book, []);
  }
}
