/** The few characters and scans that the text formats share. */
module Ascii {
  import opened Bytes

  /** A spelling as octets. */
  function Octets(text: string): (octets: seq<byte>)
    ensures |octets| == |text|
  {
    seq(|text|, i requires 0 <= i < |text| => text[i] as int % 256)
  }

  const CR: byte := 13
  const LF: byte := 10
  const COLON: byte := 58

  predicate Digit(b: byte) { 48 <= b <= 57 }

  predicate Blank(b: byte) { b == 32 || b == 9 }

  /** The punctuation of a token (section 5.6.2 of RFC 9110). */
  predicate TokenMark(b: byte) { b in {33, 35, 36, 37, 38, 39, 42, 43, 45, 46, 94, 95, 96, 124, 126} }

  predicate IsTerminator(b: byte) { b == CR || b == LF }

  function FirstColon(text: seq<byte>): (n: nat)
    ensures n <= |text| && (forall i :: 0 <= i < n ==> text[i] != COLON) && (n < |text| ==> text[n] == COLON)
  {
    if text == [] || text[0] == COLON then 0 else 1 + FirstColon(text[1..])
  }

  function LineEnd(text: seq<byte>): (n: nat)
    ensures n <= |text| && (forall i :: 0 <= i < n ==> !IsTerminator(text[i])) && (n < |text| ==> IsTerminator(text[n]))
  {
    if text == [] || IsTerminator(text[0]) then 0 else 1 + LineEnd(text[1..])
  }

  /** The decimal value of digits. */
  function Number(text: seq<byte>): int {
    if text == [] then 0 else 10 * Number(text[..|text| - 1]) + (text[|text| - 1] as int - 48)
  }

  lemma {:induction false} ColonBehind(name: seq<byte>, rest: seq<byte>)
    requires COLON !in name && (rest == [] || rest[0] == COLON)
    ensures FirstColon(name + rest) == |name|
    decreases |name|
  {
    if name == [] {
      assert name + rest == rest;
    } else {
      assert (name + rest)[0] == name[0] && (name + rest)[1..] == name[1..] + rest;
      ColonBehind(name[1..], rest);
    }
  }

  /** How a number is printed. */
  function Decimal(n: nat): (text: seq<byte>)
    ensures text != [] && forall i :: 0 <= i < |text| ==> Digit(text[i])
  {
    if n < 10 then [48 + n] else Decimal(n / 10) + [48 + n % 10]
  }

  lemma {:induction false} NumberOfDecimal(n: nat)
    ensures Number(Decimal(n)) == n && (n > 0 ==> Decimal(n)[0] != 48) && (n < 10 ==> |Decimal(n)| == 1)
  {
    if n >= 10 {
      NumberOfDecimal(n / 10);
      assert Decimal(n)[..|Decimal(n)| - 1] == Decimal(n / 10);
    }
  }

  /** The classes above, by the characters in them. */
  lemma Characters(b: byte)
    ensures Octets("\r\n:") == [CR, LF, COLON]
    ensures Blank(b) <==> b in Octets(" \t")
    ensures Digit(b) <==> b in Octets("0123456789")
    ensures TokenMark(b) <==> b in Octets("!#$%&'*+-.^_`|~")
  {
    assert Octets(" \t") == [32, 9] && Octets("0123456789") == [48, 49, 50, 51, 52, 53, 54, 55, 56, 57];
    assert Octets("!#$%&'*+-.^_`|~") == [33, 35, 36, 37, 38, 39, 42, 43, 45, 46, 94, 95, 96, 124, 126];
  }
}
