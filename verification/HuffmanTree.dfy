/**
 * Prefix codes as trees.  A codebook gives every symbol a code length and a code value; it is
 * complete and prefix free exactly when it can be drawn as a tree whose inner nodes have both
 * children and whose leaves sit where the codebook says.
 */
module HuffmanTree {
  import opened Bytes

  type Codebook = seq<(nat, nat)>

  /** The end-of-string symbol, behind the 256 octets. */
  const EOS: nat := 256

  datatype Tree = Leaf(symbol: nat) | Node(zero: Tree, one: Tree)

  function LeafCount(t: Tree): (n: nat)
    ensures n >= 1
  {
    match t case Leaf(_) => 1 case Node(l, r) => LeafCount(l) + LeafCount(r)
  }

  function Depth(t: Tree): nat {
    match t case Leaf(_) => 0 case Node(l, r) => 1 + if Depth(l) > Depth(r) then Depth(l) else Depth(r)
  }

  /** Below a path of that length and value, every leaf sits where the codebook puts its symbol. */
  predicate Agrees(book: Codebook, t: Tree, length: nat, code: nat) {
    match t
    case Leaf(s) => s < |book| && book[s] == (length, code)
    case Node(l, r) => Agrees(book, l, length + 1, 2 * code) && Agrees(book, r, length + 1, 2 * code + 1)
  }

  // ----- putting a canonical code's tree together, longest codes first

  /** Subtrees for the consecutive codes of one length from `code` on, with `leaves` leaves in all. */
  datatype Level = Level(trees: seq<Tree>, length: nat, code: nat, leaves: nat) {
    ghost predicate Valid(book: Codebook) {
      && (forall i :: 0 <= i < |trees| ==> Fits(book, trees[i], length, code + i))
      && leaves == Leaves(trees)
      && Canonical(trees)
    }
  }

  function Leaves(trees: seq<Tree>): nat {
    if trees == [] then 0 else LeafCount(trees[0]) + Leaves(trees[1..])
  }

  /** The symbols of the leaves at one depth, from left to right. */
  function LeavesAt(trees: seq<Tree>, depth: nat): seq<nat> {
    if trees == [] then [] else TreeLeaves(trees[0], depth) + LeavesAt(trees[1..], depth)
  }

  function TreeLeaves(t: Tree, depth: nat): seq<nat> {
    match t
    case Leaf(s) => if depth == 0 then [s] else []
    case Node(l, r) => if depth == 0 then [] else TreeLeaves(l, depth - 1) + TreeLeaves(r, depth - 1)
  }

  predicate Ascending(symbols: seq<nat>) {
    forall i, j :: 0 <= i < j < |symbols| ==> symbols[i] < symbols[j]
  }

  /** At every depth the symbols ascend. */
  ghost predicate Canonical(trees: seq<Tree>) {
    forall depth: nat :: Ascending(LeavesAt(trees, depth))
  }

  predicate Fits(book: Codebook, t: Tree, length: nat, code: nat) {
    Agrees(book, t, length, code) && length + Depth(t) <= 30
  }

  /** The symbols of one length, lowest code first. */
  datatype Symbols = Nil | Then(symbol: nat, rest: Symbols)

  function Count(symbols: Symbols): nat {
    match symbols case Nil => 0 case Then(_, rest) => 1 + Count(rest)
  }

  predicate Above(symbols: Symbols, symbol: nat) {
    symbols.Then? ==> symbol < symbols.symbol
  }

  predicate InOrder(book: Codebook, symbols: Symbols, length: nat, code: nat) {
    match symbols
    case Nil => true
    case Then(s, rest) =>
      s < |book| && book[s] == (length, code) && Above(rest, s) && InOrder(book, rest, length, code + 1)
  }

  /** Leaves for the symbols of this length, in front of the subtrees that begin where they end. */
  lemma {:induction false} InFront(book: Codebook, symbols: Symbols, below: Level) returns (level: Level)
    requires below.Valid(book) && Count(symbols) <= below.code && below.length <= 30
    requires InOrder(book, symbols, below.length, below.code - Count(symbols)) && LeavesAt(below.trees, 0) == []
    ensures level.Valid(book) && level.length == below.length && level.code == below.code - Count(symbols)
    ensures |level.trees| == Count(symbols) + |below.trees| && level.leaves == Count(symbols) + below.leaves
    ensures var top := LeavesAt(level.trees, 0); if symbols.Nil? then top == []
              else top != [] && top[0] == symbols.symbol
  {
    hide LeavesAt, Canonical;
    match symbols
    case Nil => level := below;
    case Then(s, rest) =>
      var tail := InFront(book, rest, below);
      level := Level([Leaf(s)] + tail.trees, below.length, tail.code - 1, 1 + tail.leaves);
      assert level.trees[1..] == tail.trees;
      forall i | 0 <= i < |level.trees| ensures Fits(book, level.trees[i], level.length, level.code + i) {
        if i > 0 { assert level.trees[i] == tail.trees[i - 1]; }
      }
      LeafInFront(s, tail.trees);
  }

  /** Below the longest codes there is nothing. */
  lemma Bottom(book: Codebook) returns (level: Level)
    ensures level.Valid(book) && level == Level([], 30, 0x4000_0000, 0) && LeavesAt(level.trees, 0) == []
  {
    level := Level([], 30, 0x4000_0000, 0);
  }

  lemma LeafInFront(s: nat, trees: seq<Tree>)
    requires Canonical(trees) && (LeavesAt(trees, 0) != [] ==> s < LeavesAt(trees, 0)[0])
    ensures Canonical([Leaf(s)] + trees) && LeavesAt([Leaf(s)] + trees, 0) == [s] + LeavesAt(trees, 0)
  {
    hide LeavesAt, Ascending;
    LeafFirst(s, trees, 0);
    SmallestFirst(s, LeavesAt(trees, 0));
    forall depth: nat ensures Ascending(LeavesAt([Leaf(s)] + trees, depth)) {
      LeafFirst(s, trees, depth);
    }
  }

  lemma LeafFirst(s: nat, trees: seq<Tree>, depth: nat)
    ensures LeavesAt([Leaf(s)] + trees, depth) == if depth == 0 then [s] + LeavesAt(trees, 0)
              else LeavesAt(trees, depth)
  {
    assert ([Leaf(s)] + trees)[0] == Leaf(s) && ([Leaf(s)] + trees)[1..] == trees;
    assert [] + LeavesAt(trees, depth) == LeavesAt(trees, depth);
  }

  lemma SmallestFirst(s: nat, symbols: seq<nat>)
    ensures Ascending(symbols) && (symbols != [] ==> s < symbols[0]) ==> Ascending([s] + symbols)
  {
  }

  lemma {:induction false} Pair(trees: seq<Tree>) returns (pairs: seq<Tree>)
    requires |trees| % 2 == 0
    ensures |trees| == 2 * |pairs| && Leaves(pairs) == Leaves(trees)
    ensures forall i :: 0 <= i < |pairs| ==> pairs[i] == Node(trees[2 * i], trees[2 * i + 1])
    ensures forall depth: nat ::
              LeavesAt(pairs, depth) == if depth == 0 then [] else LeavesAt(trees, depth - 1)
  {
    if trees == [] {
      pairs := [];
    } else {
      var rest := Pair(trees[2..]);
      pairs := [Node(trees[0], trees[1])] + rest;
      assert pairs[1..] == rest && trees[1..][1..] == trees[2..];
      forall i | 0 <= i < |pairs| ensures pairs[i] == Node(trees[2 * i], trees[2 * i + 1]) {
        if i > 0 { assert pairs[i] == rest[i - 1]; }
      }
      forall depth: nat ensures LeavesAt(pairs, depth) == if depth == 0 then [] else LeavesAt(trees, depth - 1) {
        if depth > 0 {
          var l, r, more := TreeLeaves(trees[0], depth - 1), TreeLeaves(trees[1], depth - 1),
              LeavesAt(trees[2..], depth - 1);
          assert LeavesAt(trees, depth - 1) == l + LeavesAt(trees[1..], depth - 1) && l + (r + more) == l + r + more;
        }
      }
    }
  }

  /** One length shorter: neighbouring subtrees get a common parent. */
  lemma Up(book: Codebook, level: Level, code: nat, n: nat) returns (up: Level)
    requires level.Valid(book) && level.length > 0 && level.code == 2 * code && |level.trees| == 2 * n
    ensures up.Valid(book) && up.length == level.length - 1 && up.code == code
    ensures |up.trees| == n && up.leaves == level.leaves && LeavesAt(up.trees, 0) == []
  {
    var pairs := Pair(level.trees);
    up := Level(pairs, level.length - 1, code, level.leaves);
    forall depth: nat ensures Ascending(LeavesAt(pairs, depth)) {
      if depth > 0 { assert Ascending(LeavesAt(level.trees, depth - 1)); }
    }
    forall i | 0 <= i < |pairs| ensures Fits(book, pairs[i], up.length, up.code + i) {
      assert Fits(book, level.trees[2 * i], level.length, level.code + 2 * i);
      assert Fits(book, level.trees[2 * i + 1], level.length, level.code + (2 * i + 1));
      assert pairs[i] == Node(level.trees[2 * i], level.trees[2 * i + 1]);
    }
  }

  /** Thirty-two subtrees at length five are one tree. */
  lemma Top(book: Codebook, level: Level) returns (t: Tree)
    requires level.Valid(book) && level.length == 5 && level.code == 0 && |level.trees| == 32
    ensures Agrees(book, t, 0, 0) && LeafCount(t) == level.leaves && Depth(t) <= 30 && Canonical([t])
  {
    hide Level.Valid, LeavesAt, Canonical;
    var up := Up(book, level, 0, 16);
    up := Up(book, up, 0, 8);
    up := Up(book, up, 0, 4);
    up := Up(book, up, 0, 2);
    up := Up(book, up, 0, 1);
    t := OneTree(book, up);
  }

  lemma OneTree(book: Codebook, level: Level) returns (t: Tree)
    requires level.Valid(book) && level.length == 0 && level.code == 0 && |level.trees| == 1
    ensures Agrees(book, t, 0, 0) && LeafCount(t) == level.leaves && Depth(t) <= 30 && Canonical([t])
  {
    hide LeavesAt;
    t := level.trees[0];
    assert Fits(book, t, 0, 0 + 0);
    assert level.trees == [t] && level.trees[1..] == [] && Leaves(level.trees[1..]) == 0;
  }

  // ----- walking a tree

  type Bits = seq<bool>

  /** A code's bits, most significant first. */
  function CodeBits(length: nat, code: nat): (bits: Bits)
    ensures |bits| == length
  {
    if length == 0 then [] else CodeBits(length - 1, code / 2) + [code % 2 == 1]
  }

  function SymbolBits(book: Codebook, symbol: nat): Bits
    requires symbol < |book|
  {
    CodeBits(book[symbol].0, book[symbol].1)
  }

  /** The subtree a path leads to; none when the path runs past a leaf. */
  function Walk(t: Tree, path: Bits): Option<Tree> {
    if path == [] then Some(t)
    else match t
      case Leaf(_) => None
      case Node(l, r) => Walk(if path[0] then r else l, path[1..])
  }

  lemma {:induction false} WalkAppend(t: Tree, a: Bits, b: Bits)
    ensures Walk(t, a + b) == match Walk(t, a) case None => None case Some(sub) => Walk(sub, b)
  {
    if a == [] {
      assert a + b == b;
    } else {
      assert (a + b)[0] == a[0] && (a + b)[1..] == a[1..] + b;
      match t
      case Leaf(_) =>
      case Node(l, r) => WalkAppend(if a[0] then r else l, a[1..], b);
    }
  }

  lemma {:induction false} WalkDepth(t: Tree, path: Bits)
    requires Walk(t, path).Some?
    ensures |path| + Depth(Walk(t, path).value) <= Depth(t)
  {
    if path != [] {
      WalkDepth(if path[0] then t.one else t.zero, path[1..]);
    }
  }

  /** A full tree that holds every symbol of the codebook, each where its code leads. */
  ghost predicate Draws(t: Tree, book: Codebook) {
    && Agrees(book, t, 0, 0)
    && LeafCount(t) == |book|
  }

  function SymbolsOf(t: Tree): set<nat> {
    match t case Leaf(s) => {s} case Node(l, r) => SymbolsOf(l) + SymbolsOf(r)
  }

  lemma OneBitMore(length: nat, code: nat, bit: bool)
    ensures CodeBits(length + 1, 2 * code + if bit then 1 else 0) == CodeBits(length, code) + [bit]
  {
  }

  /** A leaf is reached by exactly the bits of its symbol's code. */
  lemma {:induction false} LeafCode(book: Codebook, t: Tree, length: nat, code: nat, path: Bits)
    requires Agrees(book, t, length, code)
    requires Walk(t, path).Some? && Walk(t, path).value.Leaf?
    ensures var s := Walk(t, path).value.symbol;
            s < |book| && SymbolBits(book, s) == CodeBits(length, code) + path
  {
    hide CodeBits;
    if path == [] {
      assert CodeBits(length, code) + path == CodeBits(length, code);
    } else {
      var b := if path[0] then 1 else 0;
      LeafCode(book, if path[0] then t.one else t.zero, length + 1, 2 * code + b, path[1..]);
      OneBitMore(length, code, path[0]);
      assert CodeBits(length, code) + path == CodeBits(length, code) + [path[0]] + path[1..];
    }
  }

  /** Every symbol in the tree has a path that leads to it. */
  lemma {:induction false} PathTo(t: Tree, s: nat) returns (path: Bits)
    requires s in SymbolsOf(t)
    ensures Walk(t, path) == Some(Leaf(s))
  {
    match t
    case Leaf(_) => path := [];
    case Node(l, r) =>
      if s in SymbolsOf(l) {
        path := PathTo(l, s);
        path := [false] + path;
      } else {
        path := PathTo(r, s);
        path := [true] + path;
      }
  }

  lemma UnderBranch(book: Codebook, t: Tree, length: nat, code: nat, bit: bool, s: nat)
    requires Agrees(book, t, length + 1, 2 * code + if bit then 1 else 0) && s in SymbolsOf(t)
    ensures s < |book| && |SymbolBits(book, s)| > length && SymbolBits(book, s)[length] == bit
  {
    var path := PathTo(t, s);
    LeafCode(book, t, length + 1, 2 * code + if bit then 1 else 0, path);
    OneBitMore(length, code, bit);
  }

  /** The two halves of a node share no symbol, so a tree has as many symbols as leaves. */
  lemma {:induction false} SymbolCount(book: Codebook, t: Tree, length: nat, code: nat)
    requires Agrees(book, t, length, code)
    ensures |SymbolsOf(t)| == LeafCount(t)
    ensures forall s :: s in SymbolsOf(t) ==> s < |book|
  {
    match t
    case Leaf(_) =>
    case Node(l, r) =>
      SymbolCount(book, l, length + 1, 2 * code);
      SymbolCount(book, r, length + 1, 2 * code + 1);
      forall s | s in SymbolsOf(l) ensures s !in SymbolsOf(r) {
        UnderBranch(book, l, length, code, false, s);
        if s in SymbolsOf(r) { UnderBranch(book, r, length, code, true, s); }
      }
      assert SymbolsOf(l) !! SymbolsOf(r);
  }

  lemma {:induction false} Below(n: nat, s: set<nat>)
    requires forall x :: x in s ==> x < n
    ensures |s| <= n
    ensures |s| == n ==> forall x :: 0 <= x < n ==> x in s
  {
    if n == 0 {
      assert s == {};
    } else {
      var rest := s - {n - 1};
      Below(n - 1, rest);
      assert n - 1 in s ==> s == rest + {n - 1};
      assert n - 1 !in s ==> s == rest;
    }
  }

  /** A drawn codebook is prefix free and complete: leaves and codes are the same thing. */
  lemma LeavesAreCodes(book: Codebook, t: Tree, path: Bits, s: nat)
    requires Draws(t, book)
    ensures Walk(t, path) == Some(Leaf(s)) <==> s < |book| && path == SymbolBits(book, s)
  {
    if Walk(t, path) == Some(Leaf(s)) {
      LeafCode(book, t, 0, 0, path);
      assert CodeBits(0, 0) + path == path;
    }
    if s < |book| {
      SymbolCount(book, t, 0, 0);
      Below(|book|, SymbolsOf(t));
      var p := PathTo(t, s);
      LeafCode(book, t, 0, 0, p);
      assert CodeBits(0, 0) + p == p;
    }
  }

  // ----- canonical codes

  lemma {:induction false} LeafListed(t: Tree, path: Bits, s: nat)
    requires Walk(t, path) == Some(Leaf(s))
    ensures s in TreeLeaves(t, |path|)
    decreases |path|
  {
    if path != [] {
      LeafListed(if path[0] then t.one else t.zero, path[1..], s);
    }
  }

  /** The first place where two paths part, the left one before the right one. */
  predicate Parts(p: Bits, q: Bits, i: nat) {
    |p| == |q| && i < |p| && p[..i] == q[..i] && !p[i] && q[i]
  }

  /** Of two leaves of one depth, the left one has the smaller symbol. */
  lemma {:induction false} LeftIsSmaller(t: Tree, p: Bits, q: Bits, i: nat, s: nat, r: nat)
    requires Parts(p, q, i) && Walk(t, p) == Some(Leaf(s)) && Walk(t, q) == Some(Leaf(r))
    requires Ascending(TreeLeaves(t, |p|))
    ensures s < r
    decreases i
  {
    hide Ascending, TreeLeaves;
    var left, right := TreeLeaves(t.zero, |p| - 1), TreeLeaves(t.one, |p| - 1);
    BothHalves(t, |p|);
    if i == 0 {
      LeafListed(t.zero, p[1..], s);
      LeafListed(t.one, q[1..], r);
      LeftBeforeRight(left, right, s, r);
    } else {
      assert p[0] == p[..i][0] && q[0] == q[..i][0];
      assert p[1..][..i - 1] == p[..i][1..] && q[1..][..i - 1] == q[..i][1..];
      LeftIsSmaller(if p[0] then t.one else t.zero, p[1..], q[1..], i - 1, s, r);
    }
  }

  lemma BothHalves(t: Tree, depth: nat)
    requires t.Node? && depth > 0 && Ascending(TreeLeaves(t, depth))
    ensures var left, right := TreeLeaves(t.zero, depth - 1), TreeLeaves(t.one, depth - 1);
            Ascending(left) && Ascending(right) && Ascending(left + right)
  {
    var left, right := TreeLeaves(t.zero, depth - 1), TreeLeaves(t.one, depth - 1);
    assert forall j :: 0 <= j < |left| ==> (left + right)[j] == left[j];
    assert forall j :: 0 <= j < |right| ==> (left + right)[|left| + j] == right[j];
  }

  lemma LeftBeforeRight(left: seq<nat>, right: seq<nat>, s: nat, r: nat)
    requires Ascending(left + right) && s in left && r in right
    ensures s < r
  {
    var j, k :| 0 <= j < |left| && left[j] == s && 0 <= k < |right| && right[k] == r;
    assert (left + right)[j] == s && (left + right)[|left| + k] == r;
  }

  lemma {:induction false} SmallerIsLeft(length: nat, a: nat, b: nat) returns (i: nat)
    requires a < b < Pow2(length)
    ensures Parts(CodeBits(length, a), CodeBits(length, b), i)
    decreases length
  {
    if a / 2 == b / 2 {
      i := length - 1;
    } else {
      i := SmallerIsLeft(length - 1, a / 2, b / 2);
      var p, q := CodeBits(length - 1, a / 2), CodeBits(length - 1, b / 2);
      assert CodeBits(length, a)[..i] == p[..i] && CodeBits(length, b)[..i] == q[..i];
    }
  }

  lemma {:induction false} CodeBelow(book: Codebook, t: Tree, length: nat, code: nat, path: Bits, s: nat)
    requires Agrees(book, t, length, code) && code < Pow2(length) && Walk(t, path) == Some(Leaf(s))
    ensures s < |book| && book[s].1 < Pow2(book[s].0)
    decreases |path|
  {
    if path != [] {
      var bit := if path[0] then 1 else 0;
      CodeBelow(book, if path[0] then t.one else t.zero, length + 1, 2 * code + bit, path[1..], s);
    }
  }

  /** Among codes of one length the larger symbol has the larger code. */
  lemma CodesAscend(book: Codebook, t: Tree, s: nat, r: nat)
    requires Draws(t, book) && Canonical([t]) && s < r < |book| && book[s].0 == book[r].0
    ensures book[s].1 < book[r].1
  {
    var length, a, b := book[s].0, book[s].1, book[r].1;
    var p, q := CodeBits(length, a), CodeBits(length, b);
    LeavesAreCodes(book, t, p, s);
    LeavesAreCodes(book, t, q, r);
    CodeBelow(book, t, 0, 0, p, s);
    assert LeavesAt([t], length) == TreeLeaves(t, length) by { assert [t][1..] == []; }
    if b < a {
      var i := SmallerIsLeft(length, b, a);
      LeftIsSmaller(t, q, p, i, r, s);
    }
  }
}
