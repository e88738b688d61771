/**
 * The size line of a chunk (sections 7.1 and 7.1.1 of RFC 9112): hexadecimal digits, then extensions
 * that are checked and ignored.
 *
 * `SizeOf` scans from the left as the decoder does.  `Extension` and `Spelled` are the grammar itself,
 * as a syntax tree and its spelling; the scanner accepts exactly the spellings.
 */
module ChunkSize {
  import opened Bytes
  import opened Ascii

  predicate Hexadecimal(b: byte) { Digit(b) || 65 <= b <= 70 || 97 <= b <= 102 }
  predicate Token(b: byte) {
    Digit(b) || 65 <= b <= 90 || 97 <= b <= 122 || TokenMark(b)
  }

  const SEMICOLON: byte := 59
  const EQUALS: byte := 61
  const QUOTE: byte := 34
  const BACKSLASH: byte := 92

  predicate QuotedText(b: byte) { b == 9 || b == 32 || b == 33 || 35 <= b <= 91 || 93 <= b <= 126 || 128 <= b }
  predicate QuotedPair(b: byte) { b == 9 || 32 <= b <= 126 || 128 <= b }

  /** How many octets at the front have the property. */
  function Span(s: seq<byte>, p: byte -> bool): (n: nat)
    ensures n <= |s| && (forall i :: 0 <= i < n ==> p(s[i])) && (n < |s| ==> !p(s[n]))
  {
    if s == [] || !p(s[0]) then 0 else 1 + Span(s[1..], p)
  }

  function Drop(s: seq<byte>): (rest: seq<byte>)
    ensures |rest| <= |s|
  {
    s[Span(s, Blank)..]
  }

  function DigitValue(b: byte): nat
    requires Hexadecimal(b)
  {
    if b <= 57 then b - 48 else if b <= 70 then b - 55 else b - 87
  }

  function Value(digits: seq<byte>): nat
    requires forall i :: 0 <= i < |digits| ==> Hexadecimal(digits[i])
  {
    if digits == [] then 0 else 16 * Value(digits[..|digits| - 1]) + DigitValue(digits[|digits| - 1])
  }

  // ----- the scanner

  /** Behind an opening quote: what follows the closing one. */
  function AfterQuoted(rest: seq<byte>): (r: Option<seq<byte>>)
    ensures r.Some? ==> |r.value| < |rest|
    decreases |rest|
  {
    if rest == [] then None
    else if rest[0] == QUOTE then Some(rest[1..])
    else if rest[0] == BACKSLASH then
      if |rest| < 2 || !QuotedPair(rest[1]) then None else AfterQuoted(rest[2..])
    else if QuotedText(rest[0]) then AfterQuoted(rest[1..])
    else None
  }

  function AfterToken(rest: seq<byte>): (r: Option<seq<byte>>)
    ensures r.Some? ==> |r.value| < |rest|
  {
    if Span(rest, Token) == 0 then None else Some(rest[Span(rest, Token)..])
  }

  function AfterValue(rest: seq<byte>): (r: Option<seq<byte>>)
    ensures r.Some? ==> |r.value| < |rest|
  {
    if rest != [] && rest[0] == QUOTE then AfterQuoted(rest[1..]) else AfterToken(rest)
  }

  /** Behind an extension name: its value, if there is one. */
  function AfterName(rest: seq<byte>): (r: Option<seq<byte>>)
    ensures r.Some? ==> |r.value| <= |rest|
  {
    var next := Drop(rest);
    if next != [] && next[0] == EQUALS then AfterValue(Drop(next[1..])) else Some(rest)
  }

  function AfterExtension(rest: seq<byte>): (r: Option<seq<byte>>)
    ensures r.Some? ==> |r.value| < |rest|
  {
    var next := Drop(rest);
    if next == [] || next[0] != SEMICOLON then None
    else match AfterToken(Drop(next[1..])) case None => None case Some(named) => AfterName(named)
  }

  predicate Extensions(rest: seq<byte>)
    decreases |rest|
  {
    rest == [] || (AfterExtension(rest).Some? && Extensions(AfterExtension(rest).value))
  }

  function SizeOf(line: seq<byte>): Option<nat> {
    var digits := Span(line, Hexadecimal);
    if digits == 0 || Value(line[..digits]) > U64_MAX || !Extensions(line[digits..]) then None
    else Some(Value(line[..digits]))
  }

  // ----- the decoder

  method CountWhile(s: seq<byte>, p: byte -> bool) returns (n: nat)
    ensures n == Span(s, p)
  {
    n := 0;
    while n < |s| && p(s[n])
      invariant n <= |s|
      invariant n + Span(s[n..], p) == Span(s, p)
    {
      assert s[n..][1..] == s[n + 1..];
      n := n + 1;
    }
  }

  method SkipQuoted(quoted: seq<byte>) returns (r: Option<seq<byte>>)
    ensures r == AfterQuoted(quoted)
  {
    var rest := quoted;
    while true
      invariant AfterQuoted(rest) == AfterQuoted(quoted)
      decreases |rest|
    {
      if rest == [] {
        return None;
      }
      var octet := rest[0];
      rest := rest[1..];
      if octet == QUOTE {
        return Some(rest);
      } else if octet == BACKSLASH {
        if rest == [] || !QuotedPair(rest[0]) {
          return None;
        }
        rest := rest[1..];
      } else if !QuotedText(octet) {
        return None;
      }
    }
  }

  method SkipBlank(s: seq<byte>) returns (rest: seq<byte>)
    ensures rest == Drop(s)
  {
    var n := CountWhile(s, Blank);
    rest := s[n..];
  }

  method SkipToken(s: seq<byte>) returns (r: Option<seq<byte>>)
    ensures r == AfterToken(s)
  {
    var n := CountWhile(s, Token);
    r := if n == 0 then None else Some(s[n..]);
  }

  /** The checked 64-bit value of hexadecimal digits, refused at the first overflow. */
  method ParseHexadecimal(digits: seq<byte>) returns (value: Option<nat>)
    requires forall i :: 0 <= i < |digits| ==> Hexadecimal(digits[i])
    ensures value == if Value(digits) > U64_MAX then None else Some(Value(digits))
  {
    var total, i := 0, 0;
    while i < |digits|
      invariant 0 <= i <= |digits| && total == Value(digits[..i]) <= U64_MAX
    {
      assert digits[..i + 1][..i] == digits[..i];
      total := 16 * total + DigitValue(digits[i]);
      i := i + 1;
      if total > U64_MAX {
        Longer(digits, i);
        return None;
      }
    }
    assert digits[..i] == digits;
    value := Some(total);
  }

  lemma {:induction false} Longer(digits: seq<byte>, i: nat)
    requires (forall j :: 0 <= j < |digits| ==> Hexadecimal(digits[j])) && i <= |digits|
    ensures Value(digits[..i]) <= Value(digits)
    decreases |digits|
  {
    if i < |digits| {
      var shorter := digits[..|digits| - 1];
      assert shorter[..i] == digits[..i];
      Longer(shorter, i);
    } else {
      assert digits[..i] == digits;
    }
  }

  method DecodeChunkSize(line: seq<byte>) returns (length: Option<nat>)
    ensures length == SizeOf(line)
  {
    var digits := CountWhile(line, Hexadecimal);
    if digits == 0 {
      return None;
    }
    length := ParseHexadecimal(line[..digits]);
    if length.None? {
      return;
    }
    var rest := line[digits..];
    while rest != []
      invariant Extensions(rest) == Extensions(line[digits..])
      decreases |rest|
    {
      var before := rest;
      rest := SkipBlank(rest);
      if rest == [] || rest[0] != SEMICOLON { return None; }
      rest := SkipBlank(rest[1..]);
      var named := SkipToken(rest);
      if named.None? { return None; }
      rest := named.value;
      var value := SkipBlank(rest);
      if value != [] && value[0] == EQUALS {
        rest := SkipBlank(value[1..]);
        var after;
        if rest != [] && rest[0] == QUOTE {
          after := SkipQuoted(rest[1..]);
        } else {
          after := SkipToken(rest);
        }
        if after.None? { return None; }
        rest := after.value;
      }
      assert AfterExtension(before) == Some(rest);
    }
  }

  // ----- the grammar

  datatype Quoted = Plain(octet: byte) | Escaped(octet: byte)

  datatype Text = Bare(token: seq<byte>) | InQuotes(items: seq<Quoted>)

  /** Blanks around `;`, a name, and maybe blanks around `=` and a value. */
  datatype Extension =
    | Flag(before: seq<byte>, after: seq<byte>, name: seq<byte>)
    | Pair(before: seq<byte>, after: seq<byte>, name: seq<byte>, left: seq<byte>, right: seq<byte>, value: Text)

  predicate AllOf(s: seq<byte>, p: byte -> bool) { forall i :: 0 <= i < |s| ==> p(s[i]) }

  predicate ItemOk(q: Quoted) { match q case Plain(b) => QuotedText(b) case Escaped(b) => QuotedPair(b) }

  predicate TextOk(t: Text) {
    match t
    case Bare(token) => token != [] && AllOf(token, Token)
    case InQuotes(items) => forall i :: 0 <= i < |items| ==> ItemOk(items[i])
  }

  predicate ExtensionOk(x: Extension) {
    && AllOf(x.before, Blank) && AllOf(x.after, Blank) && x.name != [] && AllOf(x.name, Token)
    && (x.Pair? ==> AllOf(x.left, Blank) && AllOf(x.right, Blank) && TextOk(x.value))
  }

  function SpellItems(items: seq<Quoted>): seq<byte> {
    if items == [] then []
    else (match items[0] case Plain(b) => [b] case Escaped(b) => [BACKSLASH, b]) + SpellItems(items[1..])
  }

  function SpellText(t: Text): seq<byte> {
    match t case Bare(token) => token case InQuotes(items) => [QUOTE] + SpellItems(items) + [QUOTE]
  }

  function SpellValue(x: Extension): seq<byte> {
    match x
      case Flag(_, _, _) => []
      case Pair(_, _, _, left, right, value) => left + [EQUALS] + right + SpellText(value)
  }

  function SpellExtension(x: Extension): seq<byte> {
    x.before + [SEMICOLON] + x.after + x.name + SpellValue(x)
  }

  function SpellAll(xs: seq<Extension>): seq<byte> {
    if xs == [] then [] else SpellExtension(xs[0]) + SpellAll(xs[1..])
  }

  predicate AllOk(xs: seq<Extension>) { forall i :: 0 <= i < |xs| ==> ExtensionOk(xs[i]) }

  /** A line of the grammar, its size and its extensions. */
  predicate Spelled(line: seq<byte>, digits: seq<byte>, xs: seq<Extension>) {
    digits != [] && AllOf(digits, Hexadecimal) && AllOk(xs) && line == digits + SpellAll(xs)
  }

  // ----- every spelling is accepted

  lemma {:induction false} SpanOf(a: seq<byte>, b: seq<byte>, p: byte -> bool)
    requires AllOf(a, p) && (b == [] || !p(b[0]))
    ensures Span(a + b, p) == |a| && (a + b)[|a|..] == b
    decreases |a|
  {
    if a == [] {
      assert a + b == b;
    } else {
      assert (a + b)[1..] == a[1..] + b;
      SpanOf(a[1..], b, p);
    }
  }

  lemma DropOf(a: seq<byte>, b: seq<byte>)
    requires AllOf(a, Blank) && (b == [] || !Blank(b[0]))
    ensures Drop(a + b) == b
  {
    SpanOf(a, b, Blank);
  }

  lemma {:induction false} QuotedOf(items: seq<Quoted>, rest: seq<byte>)
    requires forall i :: 0 <= i < |items| ==> ItemOk(items[i])
    ensures AfterQuoted(SpellItems(items) + [QUOTE] + rest) == Some(rest)
    decreases |items|
  {
    var all := SpellItems(items) + [QUOTE] + rest;
    if items == [] {
      assert all == [QUOTE] + rest && all[1..] == rest;
    } else {
      var tail := SpellItems(items[1..]) + [QUOTE] + rest;
      QuotedOf(items[1..], rest);
      match items[0]
      case Plain(b) => assert all == [b] + tail && all[1..] == tail;
      case Escaped(b) => assert all == [BACKSLASH, b] + tail && all[2..] == tail;
    }
  }

  /** What may stand behind an extension: nothing, or the next one. */
  predicate Boundary(rest: seq<byte>) {
    rest == [] || (Drop(rest) != [] && Drop(rest)[0] == SEMICOLON)
  }

  lemma BoundaryFirst(rest: seq<byte>)
    requires Boundary(rest) && rest != []
    ensures !Token(rest[0]) && !Hexadecimal(rest[0])
  {
  }

  lemma QuoteIsNothingElse()
    ensures !Blank(QUOTE) && !Token(QUOTE) && !Blank(EQUALS) && !Token(EQUALS) && !Blank(SEMICOLON)
    ensures forall b: byte :: Token(b) ==> !Blank(b) && b != QUOTE
  {
  }

  lemma TextOf(t: Text, rest: seq<byte>)
    requires TextOk(t) && Boundary(rest)
    ensures AfterValue(SpellText(t) + rest) == Some(rest)
    ensures SpellText(t) != [] && !Blank(SpellText(t)[0])
  {
    hide Token, Blank, Boundary, AfterQuoted, SpellItems, ItemOk;
    if rest != [] { BoundaryFirst(rest); }
    QuoteIsNothingElse();
    var all := SpellText(t) + rest;
    match t
    case Bare(token) =>
      SpanOf(token, rest, Token);
      assert all[0] == token[0];
    case InQuotes(items) =>
      QuotedOf(items, rest);
      assert all[1..] == SpellItems(items) + [QUOTE] + rest;
  }

  lemma NameOf(x: Extension, rest: seq<byte>)
    requires ExtensionOk(x) && Boundary(rest)
    ensures AfterName(SpellValue(x) + rest) == Some(rest)
    ensures SpellValue(x) + rest == [] || !Token((SpellValue(x) + rest)[0])
  {
    hide Token, Blank, AfterValue, SpellText, TextOk, Drop;
    var all := SpellValue(x) + rest;
    QuoteIsNothingElse();
    if x.Flag? {
      assert all == rest;
      if rest != [] { BoundaryFirst(rest); }
      NothingAhead(rest);
    } else {
      PairOf(x, rest);
    }
  }

  lemma NothingAhead(rest: seq<byte>)
    requires Boundary(rest)
    ensures AfterName(rest) == Some(rest)
  {
  }

  lemma PairOf(x: Extension, rest: seq<byte>)
    requires x.Pair? && ExtensionOk(x) && Boundary(rest)
    ensures AfterName(SpellValue(x) + rest) == Some(rest)
    ensures SpellValue(x) != [] && !Token((SpellValue(x) + rest)[0])
  {
    hide Token, Blank, AfterValue, SpellText, TextOk, Drop, Boundary;
    var value := SpellText(x.value) + rest;
    var equals := [EQUALS] + (x.right + value);
    QuoteIsNothingElse();
    TextOf(x.value, rest);
    assert SpellValue(x) + rest == x.left + equals;
    assert equals[1..] == x.right + value && equals[0] == EQUALS;
    DropOf(x.left, equals);
    DropOf(x.right, value);
    if x.left != [] { assert (x.left + equals)[0] == x.left[0]; }
  }

  /** Blanks, the mark, blanks and the name, down to whatever follows the name. */
  lemma MarkOf(before: seq<byte>, after: seq<byte>, name: seq<byte>, value: seq<byte>)
    requires AllOf(before, Blank) && AllOf(after, Blank) && name != [] && AllOf(name, Token)
    requires value == [] || !Token(value[0])
    ensures AfterExtension(before + ([SEMICOLON] + (after + (name + value)))) == AfterName(value)
    ensures Boundary(before + ([SEMICOLON] + (after + (name + value))))
  {
    hide AfterName, Token, Blank, Drop, Span;
    var named := name + value;
    var mark := [SEMICOLON] + (after + named);
    QuoteIsNothingElse();
    SpanOf(name, value, Token);
    assert AfterToken(named) == Some(value);
    assert named[0] == name[0];
    DropOf(after, named);
    assert mark[0] == SEMICOLON && mark[1..] == after + named;
    DropOf(before, mark);
  }

  lemma ExtensionOf(x: Extension, rest: seq<byte>)
    requires ExtensionOk(x) && Boundary(rest)
    ensures AfterExtension(SpellExtension(x) + rest) == Some(rest) && Boundary(SpellExtension(x) + rest)
  {
    hide AfterName, SpellValue, AfterExtension, Token, Blank, AllOf, Boundary;
    var value := SpellValue(x) + rest;
    NameOf(x, rest);
    MarkOf(x.before, x.after, x.name, value);
    assert SpellExtension(x) + rest == x.before + ([SEMICOLON] + (x.after + (x.name + value)));
  }

  lemma {:induction false} ExtensionsOf(xs: seq<Extension>)
    requires AllOk(xs)
    ensures Extensions(SpellAll(xs)) && Boundary(SpellAll(xs))
    decreases |xs|
  {
    hide AfterExtension, SpellExtension, Boundary;
    if xs != [] {
      ExtensionsOf(xs[1..]);
      ExtensionOf(xs[0], SpellAll(xs[1..]));
    } else {
      EmptyBoundary(SpellAll(xs));
    }
  }

  lemma EmptyBoundary(rest: seq<byte>)
    requires rest == []
    ensures Boundary(rest)
  {
  }

  // ----- everything accepted is a spelling

  lemma SpanSplit(s: seq<byte>, p: byte -> bool)
    ensures s == s[..Span(s, p)] + s[Span(s, p)..] && AllOf(s[..Span(s, p)], p)
  {
    var front := s[..Span(s, p)];
    forall i | 0 <= i < |front| ensures p(front[i]) {
      assert front[i] == s[i];
    }
  }

  lemma {:induction false} QuotedFound(rest: seq<byte>) returns (items: seq<Quoted>)
    requires AfterQuoted(rest).Some?
    ensures forall i :: 0 <= i < |items| ==> ItemOk(items[i])
    ensures rest == SpellItems(items) + [QUOTE] + AfterQuoted(rest).value
    decreases |rest|
  {
    if rest[0] == QUOTE {
      items := [];
    } else {
      var n := if rest[0] == BACKSLASH then 2 else 1;
      var item := if rest[0] == BACKSLASH then Escaped(rest[1]) else Plain(rest[0]);
      var others := QuotedFound(rest[n..]);
      items := [item] + others;
      assert items[1..] == others;
      assert rest == rest[..n] + rest[n..];
    }
  }

  lemma TextFound(rest: seq<byte>) returns (t: Text)
    requires AfterValue(rest).Some?
    ensures TextOk(t) && rest == SpellText(t) + AfterValue(rest).value
  {
    if rest != [] && rest[0] == QUOTE {
      var items := QuotedFound(rest[1..]);
      t := InQuotes(items);
      assert rest == [QUOTE] + rest[1..];
    } else {
      SpanSplit(rest, Token);
      t := Bare(rest[..Span(rest, Token)]);
    }
  }

  lemma DropSplit(s: seq<byte>) returns (blanks: seq<byte>)
    ensures s == blanks + Drop(s) && AllOf(blanks, Blank)
  {
    SpanSplit(s, Blank);
    blanks := s[..Span(s, Blank)];
  }

  lemma TokenSplit(s: seq<byte>) returns (token: seq<byte>)
    requires AfterToken(s).Some?
    ensures token != [] && AllOf(token, Token) && s == token + AfterToken(s).value
  {
    SpanSplit(s, Token);
    token := s[..Span(s, Token)];
  }

  lemma ExtensionFound(rest: seq<byte>) returns (x: Extension)
    requires AfterExtension(rest).Some?
    ensures ExtensionOk(x) && rest == SpellExtension(x) + AfterExtension(rest).value
  {
    hide Drop, AfterToken, Token, Blank, AllOf;
    var next := Drop(rest);
    var inner := Drop(next[1..]);
    var named := AfterToken(inner).value;
    var before := DropSplit(rest);
    var after := DropSplit(next[1..]);
    var name := TokenSplit(inner);
    assert next == [SEMICOLON] + next[1..];
    assert rest == before + [SEMICOLON] + after + name + named;
    x := ValueFound(before, after, name, named);
    assert rest == before + [SEMICOLON] + after + name + (SpellValue(x) + AfterName(named).value);
  }

  lemma ValueFound(before: seq<byte>, after: seq<byte>, name: seq<byte>, rest: seq<byte>) returns (x: Extension)
    requires AllOf(before, Blank) && AllOf(after, Blank) && name != [] && AllOf(name, Token) && AfterName(rest).Some?
    ensures ExtensionOk(x) && x.before == before && x.after == after && x.name == name
    ensures rest == SpellValue(x) + AfterName(rest).value
  {
    hide Drop, Token, Blank, AllOf, AfterValue, SpellText, TextOk;
    var tail := Drop(rest);
    if tail != [] && tail[0] == EQUALS {
      var left := DropSplit(rest);
      var right := DropSplit(tail[1..]);
      var value := TextFound(Drop(tail[1..]));
      assert tail == [EQUALS] + tail[1..];
      x := Pair(before, after, name, left, right, value);
      assert rest == left + [EQUALS] + right + SpellText(value) + AfterName(rest).value;
    } else {
      x := Flag(before, after, name);
      assert [] + rest == rest;
    }
  }

  lemma {:induction false} ExtensionsFound(rest: seq<byte>) returns (xs: seq<Extension>)
    requires Extensions(rest)
    ensures AllOk(xs) && rest == SpellAll(xs)
    decreases |rest|
  {
    hide AfterExtension, ExtensionOk, SpellExtension;
    xs := [];
    if rest != [] {
      var x := ExtensionFound(rest);
      var others := ExtensionsFound(AfterExtension(rest).value);
      xs := [x] + others;
      assert xs[1..] == others;
    }
  }

  /**
   * A size is read from a line exactly when the line is spelled by the grammar with digits of that value
   * below 2^64, whatever the extensions say.
   */
  lemma SizeIff(line: seq<byte>, size: nat)
    ensures SizeOf(line) == Some(size) <==>
              size <= U64_MAX && exists digits, xs :: Spelled(line, digits, xs) && Value(digits) == size
  {
    hide Extensions, SpellAll, Value;
    if SizeOf(line) == Some(size) {
      var n := Span(line, Hexadecimal);
      SpanSplit(line, Hexadecimal);
      var xs := ExtensionsFound(line[n..]);
      assert Spelled(line, line[..n], xs);
    }
    if digits, xs :| size <= U64_MAX && Spelled(line, digits, xs) && Value(digits) == size {
      ExtensionsOf(xs);
      var rest := SpellAll(xs);
      if rest != [] { BoundaryFirst(rest); }
      SpanOf(digits, rest, Hexadecimal);
      assert line[..|digits|] == digits;
    }
  }

  // ----- no line feed hides in a size line

  lemma ExtensionClean(x: Extension)
    requires ExtensionOk(x)
    ensures 10 !in SpellExtension(x)
  {
    assert 10 !in x.before && 10 !in x.after && 10 !in x.name;
    if x.Pair? {
      assert 10 !in x.left && 10 !in x.right;
      match x.value
      case Bare(token) =>
      case InQuotes(items) => ItemsClean(items);
    }
  }

  lemma {:induction false} ItemsClean(items: seq<Quoted>)
    requires forall i :: 0 <= i < |items| ==> ItemOk(items[i])
    ensures 10 !in SpellItems(items)
    decreases |items|
  {
    if items != [] { ItemsClean(items[1..]); }
  }

  lemma {:induction false} AllClean(xs: seq<Extension>)
    requires AllOk(xs)
    ensures 10 !in SpellAll(xs)
    decreases |xs|
  {
    hide SpellExtension;
    if xs != [] {
      ExtensionClean(xs[0]);
      AllClean(xs[1..]);
    }
  }

  lemma SizeLineClean(line: seq<byte>)
    requires SizeOf(line).Some?
    ensures 10 !in line
  {
    hide SizeOf;
    SizeIff(line, SizeOf(line).value);
    var digits, xs :| Spelled(line, digits, xs) && Value(digits) == SizeOf(line).value;
    AllClean(xs);
  }

  // ----- digits and character classes

  /** Sixteen digits, the letters in either case, and nothing else. */
  lemma DigitIff(b: byte, v: nat)
    ensures Hexadecimal(b) && DigitValue(b) == v <==>
              v < 16 && (b == Octets("0123456789abcdef")[v] || b == Octets("0123456789ABCDEF")[v])
  {
  }

  function HexDigit(v: nat): (b: byte)
    requires v < 16
    ensures Hexadecimal(b) && DigitValue(b) == v
  {
    if v < 10 then 48 + v else 87 + v
  }

  /** A number in hexadecimal. */
  function Hex(n: nat): (digits: seq<byte>)
    ensures digits != [] && AllOf(digits, Hexadecimal)
  {
    if n < 16 then [HexDigit(n)] else Hex(n / 16) + [HexDigit(n % 16)]
  }

  lemma {:induction false} ValueOfHex(n: nat)
    ensures Value(Hex(n)) == n
  {
    if n < 16 {
      assert Hex(n)[..0] == [];
    } else {
      ValueOfHex(n / 16);
      assert Hex(n)[..|Hex(n)| - 1] == Hex(n / 16);
    }
  }

  /** A size written in hexadecimal, with any extensions, is that size. */
  lemma SizeWritten(n: nat, xs: seq<Extension>)
    requires n <= U64_MAX && AllOk(xs)
    ensures SizeOf(Hex(n) + SpellAll(xs)) == Some(n)
  {
    hide SizeOf, Value, SpellAll;
    ValueOfHex(n);
    assert Spelled(Hex(n) + SpellAll(xs), Hex(n), xs);
    SizeIff(Hex(n) + SpellAll(xs), n);
  }

  /** Text in quotes is any printable, blank or non-ASCII octet but the quote and the backslash; both may be escaped. */
  lemma QuotedIff(b: byte)
    ensures QuotedPair(b) <==> (b == 9 || b >= 32) && b != 127
    ensures QuotedText(b) <==> QuotedPair(b) && b != Octets("\"")[0] && b != Octets("\\")[0]
  {
  }

  lemma TokenIff(b: byte)
    ensures Token(b) <==> 48 <= b <= 57 || 65 <= b <= 90 || 97 <= b <= 122 || b in Octets("!#$%&'*+-.^_`|~")
  {
    hide Octets, TokenMark;
    Characters(b);
  }
}
