/**
 * A response head as it is written: a status line, field lines, an empty line.  `HeadGates.Head` reads it back
 * exactly when it is written so and stays within the bounds.
 */
module HeadGrammar {
  import opened Bytes
  import opened Ascii
  import opened ChunkedBody
  import opened HeadGates

  /** A field line; the blanks around the value do not belong to it. */
  datatype Written = Written(name: seq<byte>, left: seq<byte>, value: seq<byte>, right: seq<byte>)

  predicate Blanks(s: seq<byte>) { forall i :: 0 <= i < |s| ==> s[i] == 32 || s[i] == 9 }

  predicate Unbroken(s: seq<byte>) { forall i :: 0 <= i < |s| ==> s[i] != 13 && s[i] != 10 }

  predicate Tight(s: seq<byte>) { s != [] ==> !Blank(s[0]) && !Blank(s[|s| - 1]) }

  predicate Proper(p: Policy, w: Written) {
    && 58 !in w.name && Tight(w.value) && Blanks(w.left) && Blanks(w.right) && (w.value == [] ==> w.right == [])
    && Unbroken(w.name) && Unbroken(w.value)
    && p.nameOk(w.name) && p.utf8(w.left + w.value + w.right) && p.valueOk(w.value)
  }

  function Spelling(w: Written): seq<byte> { w.name + [58] + w.left + w.value + w.right }

  function Meant(w: Written): Field { Field(Lower(w.name), w.value) }

  predicate AllProper(p: Policy, ws: seq<Written>) {
    forall i :: 0 <= i < |ws| ==> Proper(p, ws[i]) && |ws[i].name| + |ws[i].value| <= p.fieldBytes
  }

  function Spelled(ws: seq<Written>): seq<byte> {
    if ws == [] then [] else Spelling(ws[0]) + [13, 10] + Spelled(ws[1..])
  }

  function Meanings(ws: seq<Written>): seq<Field> { seq(|ws|, i requires 0 <= i < |ws| => Meant(ws[i])) }

  // ----- one line

  lemma {:induction false} LeftCut(s: seq<byte>) returns (blanks: seq<byte>)
    ensures s == blanks + TrimLeft(s) && Blanks(blanks) && (TrimLeft(s) == [] || !Blank(TrimLeft(s)[0]))
  {
    blanks := [];
    if s != [] && Blank(s[0]) {
      var more := LeftCut(s[1..]);
      blanks := [s[0]] + more;
      assert s == [s[0]] + s[1..];
    }
  }

  lemma {:induction false} RightCut(s: seq<byte>) returns (blanks: seq<byte>)
    ensures s == TrimRight(s) + blanks && Blanks(blanks)
    ensures TrimRight(s) == [] || !Blank(TrimRight(s)[|TrimRight(s)| - 1])
  {
    blanks := [];
    if s != [] && Blank(s[|s| - 1]) {
      var more := RightCut(s[..|s| - 1]);
      blanks := more + [s[|s| - 1]];
      assert s == s[..|s| - 1] + [s[|s| - 1]];
    }
  }

  lemma Raw(line: seq<byte>) returns (left: seq<byte>, right: seq<byte>)
    requires FirstColon(line) < |line|
    ensures Blanks(left) && Blanks(right) && Tight(Value(line)) && (Value(line) == [] ==> right == [])
    ensures line[FirstColon(line) + 1..] == left + Value(line) + right
  {
    hide TrimLeft, TrimRight, FirstColon, Blanks, Blank;
    var raw := line[FirstColon(line) + 1..];
    left := LeftCut(raw);
    right := RightCut(TrimLeft(raw));
    TrimRightShorter(TrimLeft(raw));
    assert raw == left + (Value(line) + right);
    if Value(line) != [] { assert TrimLeft(raw)[0] == Value(line)[0]; }
  }

  lemma FieldFound(p: Policy, line: seq<byte>) returns (w: Written)
    requires FieldOf(p, line).Some? && Unbroken(line)
    ensures line == Spelling(w) && Proper(p, w) && FieldOf(p, line) == Some(Meant(w))
    ensures Decoded(line) == |w.name| + |w.value|
  {
    hide Lower, Trimmed, Unbroken;
    var left, right := Raw(line);
    var n := FirstColon(line);
    w := Written(Name(line), left, Value(line), right);
    assert line == w.name + [58] + (w.left + w.value + w.right);
    Parts(w);
  }

  lemma Parts(w: Written)
    requires Blanks(w.left) && Blanks(w.right)
    ensures Unbroken(Spelling(w)) <==> Unbroken(w.name) && Unbroken(w.value)
  {
    Joined(w.name, [58] + w.left + w.value + w.right);
    Joined([58] + w.left, w.value + w.right);
    Joined(w.value, w.right);
    assert Spelling(w) == w.name + ([58] + w.left + w.value + w.right);
    assert [58] + w.left + w.value + w.right == [58] + w.left + (w.value + w.right);
  }

  lemma Joined(a: seq<byte>, b: seq<byte>)
    ensures Unbroken(a + b) <==> Unbroken(a) && Unbroken(b)
  {
    assert forall i :: 0 <= i < |a| ==> (a + b)[i] == a[i];
    assert forall i :: 0 <= i < |b| ==> (a + b)[|a| + i] == b[i];
  }

  /** The first colon of a line is the one behind its name. */
  lemma ColonSplits(w: Written)
    requires 58 !in w.name
    ensures var line := Spelling(w);
            && FirstColon(line) == |w.name| < |line| && Name(line) == w.name
            && line[|w.name| + 1..] == w.left + w.value + w.right
  {
    var line, behind := Spelling(w), w.left + w.value + w.right;
    assert line == w.name + ([58] + behind) == (w.name + [58]) + behind;
    ColonBehind(w.name, [58] + behind);
  }

  lemma FieldRead(p: Policy, w: Written)
    requires Proper(p, w)
    ensures FieldOf(p, Spelling(w)) == Some(Meant(w)) && Decoded(Spelling(w)) == |w.name| + |w.value|
    ensures Spelling(w) != [] && Unbroken(Spelling(w))
  {
    hide Lower, Name, Value, Decoded, Unbroken, FirstColon, Spelling;
    Parts(w);
    ColonSplits(w);
    SpellingRead(w);
  }

  lemma SpellingRead(w: Written)
    requires 58 !in w.name && Tight(w.value) && Blanks(w.left) && Blanks(w.right) && (w.value == [] ==> w.right == [])
    ensures Value(Spelling(w)) == w.value && Decoded(Spelling(w)) == |w.name| + |w.value|
  {
    hide Name, Value, Decoded;
    FieldLineRead(w.name, w.left, w.value, w.right);
  }

  lemma FieldLineFound(p: Policy, input: seq<byte>, fields: nat, charged: nat)
    requires FieldLine(p, input, fields, charged).Some?
    ensures var (line, rest) := FieldLine(p, input, fields, charged).value;
            input == line + [13, 10] + rest && Unbroken(line) && LineFits(p, line, fields, charged)
  {
    hide LineFits;
    var n := LineEnd(input);
    assert input == input[..n] + [input[n], input[n + 1]] + input[n + 2..];
  }

  lemma FieldLineTaken(p: Policy, line: seq<byte>, rest: seq<byte>, fields: nat, charged: nat)
    requires Unbroken(line) && LineFits(p, line, fields, charged)
    ensures FieldLine(p, line + [13, 10] + rest, fields, charged) == Some((line, rest))
  {
    hide LineFits;
    var input := line + [13, 10] + rest;
    LineEndAt(input, |line|);
    assert input[..|line|] == line && input[|line| + 2..] == rest;
  }

  // ----- all lines

  /** What the fields read so far leave of the bounds. */
  predicate Within(p: Policy, ws: seq<Written>, fields: nat, charged: nat) {
    (ws == [] || fields + |ws| <= p.fieldCount) && charged + |Spelled(ws)| + 2 <= p.headBytes
  }

  lemma {:induction false} FieldsFound(p: Policy, input: seq<byte>, fields: seq<Field>, charged: nat)
      returns (ws: seq<Written>)
    requires Fields(p, input, fields, charged).Some?
    ensures AllProper(p, ws) && Within(p, ws, |fields|, charged)
    ensures var (all, rest) := Fields(p, input, fields, charged).value;
            input == Spelled(ws) + [13, 10] + rest && all == fields + Meanings(ws)
    decreases |input|
  {
    hide FieldOf, Decoded, FieldLine, Proper, Spelling, Meant;
    FieldLineFound(p, input, |fields|, charged);
    var (line, rest) := FieldLine(p, input, |fields|, charged).value;
    ws := [];
    if line != [] {
      var w := FieldFound(p, line);
      var more := FieldsFound(p, rest, fields + [Meant(w)], charged + |line| + 2);
      ws := [w] + more;
      assert ws[1..] == more;
      assert Meanings(ws) == [Meant(w)] + Meanings(more);
    } else {
      assert Meanings(ws) == [];
    }
  }

  lemma {:induction false} FieldsRead(p: Policy, ws: seq<Written>, rest: seq<byte>, fields: seq<Field>, charged: nat)
    requires AllProper(p, ws) && Within(p, ws, |fields|, charged)
    ensures Fields(p, Spelled(ws) + [13, 10] + rest, fields, charged) == Some((fields + Meanings(ws), rest))
    decreases |ws|
  {
    hide FieldOf, Decoded, FieldLine, Proper, Spelling, Meant;
    var input := Spelled(ws) + [13, 10] + rest;
    if ws == [] {
      EmptyAgrees([]);
      FieldLineTaken(p, [], rest, |fields|, charged);
      assert input == [] + [13, 10] + rest && fields + Meanings(ws) == fields;
    } else {
      var w, line := ws[0], Spelling(ws[0]);
      var behind := Spelled(ws[1..]) + [13, 10] + rest;
      FieldRead(p, w);
      assert input == line + [13, 10] + behind;
      FieldLineTaken(p, line, behind, |fields|, charged);
      FieldsRead(p, ws[1..], rest, fields + [Meant(w)], charged + |line| + 2);
      assert fields + [Meant(w)] + Meanings(ws[1..]) == fields + Meanings(ws);
    }
  }

  // ----- whole heads

  /** This status line and these field lines, in this order, and what is behind them. */
  predicate Heads(p: Policy, first: seq<byte>, ws: seq<Written>, input: seq<byte>, rest: seq<byte>) {
    && 10 !in first && AllProper(p, ws) && |ws| <= p.fieldCount
    && input == first + [13, 10] + Spelled(ws) + [13, 10] + rest
    && |first| + 2 + |Spelled(ws)| + 2 <= p.headBytes
  }

  /**
   * A head is read from an input exactly when the input starts with a status line that stands for that status,
   * field lines that say those fields in that order, and an empty line, all within the bounds.
   */
  lemma HeadIff(p: Policy, input: seq<byte>, status: nat, fields: seq<Field>, rest: seq<byte>)
    ensures Head(p, input) == Some((status, fields, rest)) <==>
              exists first, ws ::
                Heads(p, first, ws, input, rest) && p.statusOf(first) == Some(status) && fields == Meanings(ws)
  {
    hide Fields, Proper, Spelling, Meant, FirstLine;
    if Head(p, input) == Some((status, fields, rest)) {
      ChunkedBody.LineFound(input, p.headBytes);
      var (first, behind) := FirstLine(input, p.headBytes).value;
      var ws := FieldsFound(p, behind, [], |first| + 2);
      assert input == first + [13, 10] + Spelled(ws) + [13, 10] + rest;
      assert Heads(p, first, ws, input, rest);
    }
    if first, ws :| Heads(p, first, ws, input, rest) && p.statusOf(first) == Some(status) && fields == Meanings(ws) {
      var behind := Spelled(ws) + [13, 10] + rest;
      assert input == first + CRLF + behind;
      ChunkedBody.LineOf(first, behind, p.headBytes);
      FieldsRead(p, ws, rest, [], |first| + 2);
      assert [] + Meanings(ws) == Meanings(ws);
    }
  }
}
