/** The order of stream cursors: canonical decimal positions by number, every other spelling before them by text. */
module CursorOrder {
  import opened Bytes
  import opened Ascii

  type Text = seq<byte>

  datatype Ordering = Less | Equal | Greater

  // ----- numbers

  /** Digits without a needless zero, below 2^64: what a number prints as. */
  function CanonicalNumber(text: Text): Option<nat> {
    if text == [] || !(forall i :: 0 <= i < |text| ==> Digit(text[i])) || (|text| > 1 && text[0] == 48) then None
    else
      var n := Number(text);
      if 0 <= n <= U64_MAX then Some(n) else None
  }

  lemma {:induction false} DecimalOfNumber(text: Text)
    requires text != [] && (forall i :: 0 <= i < |text| ==> Digit(text[i])) && (|text| > 1 ==> text[0] != 48)
    ensures Number(text) >= 0 && Decimal(Number(text)) == text && (text[0] != 48 ==> Number(text) > 0)
  {
    if |text| == 1 {
      assert Number(text[..0]) == 0;
    } else {
      var front, last := text[..|text| - 1], text[|text| - 1];
      assert front[0] == text[0];
      DecimalOfNumber(front);
      var n := Number(text);
      assert n / 10 == Number(front) && n % 10 == last as int - 48;
      assert text == front + [last];
    }
  }

  /** A spelling is a number's exactly when it is how that number is printed. */
  lemma CanonicalIff(text: Text, n: nat)
    ensures CanonicalNumber(text) == Some(n) <==> n <= U64_MAX && text == Decimal(n)
  {
    NumberOfDecimal(n);
    if CanonicalNumber(text) == Some(n) { DecimalOfNumber(text); }
  }

  // ----- positions

  function Position(text: Text): Option<(nat, nat)> {
    var n := FirstColon(text);
    if n == |text| then None
    else match CanonicalNumber(text[..n])
      case None => None
      case Some(generation) =>
        match CanonicalNumber(text[n + 1..]) case None => None case Some(sequence) => Some((generation, sequence))
  }

  /** Two spellings of one position are one spelling. */
  lemma PositionSpelled(text: Text)
    requires Position(text).Some?
    ensures var (g, q) := Position(text).value; text == Decimal(g) + [COLON] + Decimal(q)
  {
    var n := FirstColon(text);
    var (g, q) := Position(text).value;
    CanonicalIff(text[..n], g);
    CanonicalIff(text[n + 1..], q);
    assert text == text[..n] + [text[n]] + text[n + 1..];
  }

  // ----- the order

  function CompareNumbers(a: nat, b: nat): Ordering { if a < b then Less else if a == b then Equal else Greater }

  function CompareText(a: Text, b: Text): Ordering {
    if a == [] && b == [] then Equal
    else if a == [] then Less
    else if b == [] then Greater
    else if a[0] != b[0] then CompareNumbers(a[0], b[0])
    else CompareText(a[1..], b[1..])
  }

  function ComparePositions(a: (nat, nat), b: (nat, nat)): Ordering {
    if a.0 != b.0 then CompareNumbers(a.0, b.0) else CompareNumbers(a.1, b.1)
  }

  function Compare(a: Text, b: Text): Ordering {
    match Position(a)
    case None => if Position(b).None? then CompareText(a, b) else Less
    case Some(p) => if Position(b).None? then Greater else ComparePositions(p, Position(b).value)
  }

  function Flipped(o: Ordering): Ordering {
    match o case Less => Greater case Equal => Equal case Greater => Less
  }

  lemma {:induction false} TextEqual(a: Text, b: Text)
    ensures CompareText(a, b) == Equal <==> a == b
    ensures CompareText(b, a) == Flipped(CompareText(a, b))
    decreases |a|
  {
    if a != [] && b != [] && a[0] == b[0] {
      TextEqual(a[1..], b[1..]);
      assert a == [a[0]] + a[1..] && b == [b[0]] + b[1..];
    }
  }

  lemma {:induction false} TextTransitive(a: Text, b: Text, c: Text)
    requires CompareText(a, b) == Less && CompareText(b, c) == Less
    ensures CompareText(a, c) == Less
    decreases |a|
  {
    if a != [] && a[0] == b[0] && b[0] == c[0] {
      TextTransitive(a[1..], b[1..], c[1..]);
    }
  }

  /** Equal means the same cursor, and the order turns around with its arguments. */
  lemma EqualIff(a: Text, b: Text)
    ensures Compare(a, b) == Equal <==> a == b
    ensures Compare(b, a) == Flipped(Compare(a, b))
  {
    TextEqual(a, b);
    if Position(a).Some? { PositionSpelled(a); }
    if Position(b).Some? { PositionSpelled(b); }
  }

  /** Mixed spellings included, the order is transitive; with `EqualIff`, total. */
  lemma Transitive(a: Text, b: Text, c: Text)
    requires Compare(a, b) == Less && Compare(b, c) == Less
    ensures Compare(a, c) == Less
  {
    hide Position;
    if Position(a).None? && Position(b).None? && Position(c).None? { TextTransitive(a, b, c); }
  }

  // ----- what the order is

  /** A cursor the agent issues: two numbers and a colon. */
  function Cursor(generation: nat, sequence: nat): Text { Decimal(generation) + [COLON] + Decimal(sequence) }

  /** Exactly these spellings are positions, each of its own two numbers. */
  lemma PositionIff(text: Text, g: nat, q: nat)
    ensures Position(text) == Some((g, q)) <==> g <= U64_MAX && q <= U64_MAX && text == Cursor(g, q)
  {
    hide CanonicalNumber;
    if Position(text) == Some((g, q)) {
      PositionSpelled(text);
      var n := FirstColon(text);
      CanonicalIff(text[..n], g);
      CanonicalIff(text[n + 1..], q);
    }
    if g <= U64_MAX && q <= U64_MAX && text == Cursor(g, q) {
      var front, back := Decimal(g), Decimal(q);
      NoColon(front);
      assert text == front + ([COLON] + back);
      ColonBehind(front, [COLON] + back);
      assert text[..|front|] == front && text[|front| + 1..] == back;
      CanonicalIff(front, g);
      CanonicalIff(back, q);
    }
  }

  lemma NoColon(digits: Text)
    requires forall i :: 0 <= i < |digits| ==> Digit(digits[i])
    ensures COLON !in digits
  {
  }

  /** Positions are ordered by generation and then by sequence. */
  lemma PositionsByNumber(g: nat, q: nat, h: nat, r: nat)
    requires g <= U64_MAX && q <= U64_MAX && h <= U64_MAX && r <= U64_MAX
    ensures Compare(Cursor(g, q), Cursor(h, r)) == Less <==> g < h || (g == h && q < r)
    ensures Compare(Cursor(g, q), Cursor(h, r)) == Equal <==> g == h && q == r
  {
    PositionIff(Cursor(g, q), g, q);
    PositionIff(Cursor(h, r), h, r);
  }

  /** Every other spelling is below every position. */
  lemma OthersBelow(text: Text, g: nat, q: nat)
    requires g <= U64_MAX && q <= U64_MAX && Position(text).None?
    ensures Compare(text, Cursor(g, q)) == Less && Compare(Cursor(g, q), text) == Greater
  {
    PositionIff(Cursor(g, q), g, q);
  }

  /** The first i octets agree and then `a` ends or has the smaller octet. */
  predicate SmallerAt(a: Text, b: Text, i: nat) {
    i < |b| && i <= |a| && a[..i] == b[..i] && (i < |a| ==> a[i] < b[i])
  }

  /** Other spellings are ordered by their first differing octet. */
  lemma OthersByText(a: Text, b: Text)
    requires Position(a).None? && Position(b).None?
    ensures Compare(a, b) == Less <==> exists i: nat :: i <= |a| && SmallerAt(a, b, i)
  {
    hide Position;
    TextIff(a, b);
  }

  lemma FirstAgrees(a: Text, b: Text, i: nat)
    requires a != [] && b != [] && SmallerAt(a, b, i)
    ensures if i == 0 then a[0] < b[0] else a[0] == b[0]
  {
    if i > 0 { assert a[0] == a[..i][0] && b[0] == b[..i][0]; }
  }

  lemma {:induction false} TextIff(a: Text, b: Text)
    ensures CompareText(a, b) == Less <==> exists i: nat :: i <= |a| && SmallerAt(a, b, i)
    decreases |a|
  {
    if a == [] || b == [] {
      if a == [] && b != [] { assert SmallerAt(a, b, 0); }
    } else if a[0] != b[0] {
      if a[0] < b[0] { assert SmallerAt(a, b, 0); }
      if i: nat :| i <= |a| && SmallerAt(a, b, i) { FirstAgrees(a, b, i); }
    } else {
      TextIff(a[1..], b[1..]);
      if i: nat :| i <= |a[1..]| && SmallerAt(a[1..], b[1..], i) {
        assert a[..i + 1] == [a[0]] + a[1..][..i] && b[..i + 1] == [b[0]] + b[1..][..i];
        assert SmallerAt(a, b, i + 1);
      }
      if i: nat :| i <= |a| && SmallerAt(a, b, i) {
        assert a[1..][..i - 1] == a[..i][1..] && b[1..][..i - 1] == b[..i][1..];
        assert SmallerAt(a[1..], b[1..], i - 1);
      }
    }
  }
}
