/**
 * The two gates on an HTTP/1.1 response head: raw octets and decoded field octets counted while a line
 * is still arriving, and the field reader that counts again once it has.  The second never objects.
 */
module HeadGates {
  import opened Bytes
  import opened Ascii
  import opened ChunkedBody

  /** The installed limits, and what the status line and the header library take. */
  datatype Policy = Policy(fieldBytes: nat, fieldCount: nat, headBytes: nat, statusOf: seq<byte> -> Option<nat>,
                           nameOk: seq<byte> -> bool, utf8: seq<byte> -> bool, valueOk: seq<byte> -> bool)

  // ----- what a field line means

  function TrimLeft(s: seq<byte>): seq<byte> {
    if s != [] && Blank(s[0]) then TrimLeft(s[1..]) else s
  }

  function TrimRight(s: seq<byte>): seq<byte> {
    if s != [] && Blank(s[|s| - 1]) then TrimRight(s[..|s| - 1]) else s
  }

  function Trimmed(s: seq<byte>): seq<byte> { TrimRight(TrimLeft(s)) }

  function Name(line: seq<byte>): seq<byte> { line[..FirstColon(line)] }

  function Value(line: seq<byte>): seq<byte> {
    if FirstColon(line) < |line| then Trimmed(line[FirstColon(line) + 1..]) else []
  }

  /** Name and trimmed value, the delimiter and the blanks around it not counted. */
  function Decoded(line: seq<byte>): nat { |Name(line)| + |Value(line)| }

  // ----- the count kept while the line arrives

  datatype Count = Count(inValue: bool, started: bool, decoded: nat, pending: nat)

  function Counting(c: Count, octet: byte, maximum: nat): Option<Count> {
    if !c.inValue && octet == COLON then Some(c.(inValue := true))
    else if c.inValue && Blank(octet) then Some(if c.started then c.(pending := c.pending + 1) else c)
    else if c.decoded + c.pending + 1 > maximum then None
    else Some(c.(decoded := c.decoded + c.pending + 1, pending := 0, started := c.started || c.inValue))
  }

  function Counted(line: seq<byte>, maximum: nat): Option<Count> {
    if line == [] then Some(Count(false, false, 0, 0))
    else match Counted(line[..|line| - 1], maximum)
      case None => None
      case Some(c) => Counting(c, line[|line| - 1], maximum)
  }

  // ----- one octet more

  lemma {:induction false} ColonMore(line: seq<byte>, octet: byte)
    ensures FirstColon(line + [octet]) ==
            if FirstColon(line) < |line| then FirstColon(line) else if octet == COLON then |line| else |line| + 1
    decreases |line|
  {
    var all := line + [octet];
    if line != [] {
      assert all[0] == line[0] && all[1..] == line[1..] + [octet];
      if line[0] != COLON { ColonMore(line[1..], octet); }
    } else {
      assert all[1..] == [];
    }
  }

  lemma {:induction false} TrimLeftMore(s: seq<byte>, octet: byte)
    ensures TrimLeft(s + [octet]) == if TrimLeft(s) == [] && Blank(octet) then [] else TrimLeft(s) + [octet]
    decreases |s|
  {
    var all := s + [octet];
    if s == [] {
      assert all == [octet] && all[1..] == [];
    } else if Blank(s[0]) {
      assert all[0] == s[0] && all[1..] == s[1..] + [octet];
      TrimLeftMore(s[1..], octet);
    }
  }

  lemma TrimRightMore(s: seq<byte>, octet: byte)
    ensures TrimRight(s + [octet]) == if Blank(octet) then TrimRight(s) else s + [octet]
  {
    assert (s + [octet])[..|s|] == s;
  }

  lemma {:induction false} TrimRightShorter(s: seq<byte>)
    ensures |TrimRight(s)| <= |s|
    ensures s != [] && !Blank(s[0]) ==> TrimRight(s) != []
  {
    if s != [] && Blank(s[|s| - 1]) { TrimRightShorter(s[..|s| - 1]); }
  }

  /** The count against the line it has seen. */
  predicate Agrees(c: Count, line: seq<byte>) {
    var colon := FirstColon(line);
    if colon == |line| then c == Count(false, false, |line|, 0)
    else
      var value := TrimLeft(line[colon + 1..]);
      c.inValue && c.started == (value != []) && c.decoded == colon + |TrimRight(value)| &&
      c.pending == |value| - |TrimRight(value)|
  }

  lemma AgreesMore(c: Count, line: seq<byte>, octet: byte, maximum: nat)
    requires Agrees(c, line)
    ensures Counting(c, octet, maximum).Some? ==> Agrees(Counting(c, octet, maximum).value, line + [octet])
    ensures Counting(c, octet, maximum).None? ==> Decoded(line + [octet]) > maximum
    ensures Decoded(line) <= Decoded(line + [octet])
    ensures Counting(c, octet, maximum).Some? ==>
              Decoded(line + [octet]) <= maximum || Decoded(line + [octet]) == Decoded(line)
  {
    hide FirstColon, TrimLeft, TrimRight, Blank;
    var all, colon := line + [octet], FirstColon(line);
    ColonMore(line, octet);
    if colon < |line| {
      var after := line[colon + 1..];
      assert all[colon + 1..] == after + [octet] && all[..colon] == line[..colon];
      TrimLeftMore(after, octet);
      TrimRightMore(TrimLeft(after), octet);
      TrimRightShorter(TrimLeft(after));
      NothingTrimmed([]);
    } else {
      assert line[..|line|] == line;
      if octet == COLON {
        assert all[..|line|] == line && all[|line| + 1..] == [];
      } else {
        assert all[..|line| + 1] == all;
      }
      NothingTrimmed([]);
    }
  }

  lemma NothingTrimmed(s: seq<byte>)
    requires s == []
    ensures TrimLeft(s) == [] && TrimRight(s) == []
  {
  }

  /**
   * The streaming count refuses a line exactly when name and trimmed value together pass the bound, and else
   * is their length.
   */
  lemma {:induction false} CountedIff(line: seq<byte>, maximum: nat)
    ensures Counted(line, maximum).Some? <==> Decoded(line) <= maximum
    ensures Counted(line, maximum).Some? ==>
              Agrees(Counted(line, maximum).value, line) && Counted(line, maximum).value.decoded == Decoded(line)
  {
    hide Agrees, Decoded, Counting;
    if line == [] {
      EmptyAgrees(line);
    } else {
      var before, octet := line[..|line| - 1], line[|line| - 1];
      assert line == before + [octet];
      CountedIff(before, maximum);
      if Counted(before, maximum).Some? {
        AgreesMore(Counted(before, maximum).value, before, octet, maximum);
        if Counted(line, maximum).Some? { AgreesMeans(Counted(line, maximum).value, line); }
      } else {
        DecodedGrows(before, octet);
      }
    }
  }

  lemma EmptyAgrees(line: seq<byte>)
    requires line == []
    ensures Agrees(Count(false, false, 0, 0), line) && Decoded(line) == 0
  {
  }

  lemma AgreesMeans(c: Count, line: seq<byte>)
    requires Agrees(c, line)
    ensures c.decoded == Decoded(line)
  {
  }

  lemma DecodedGrows(line: seq<byte>, octet: byte)
    ensures Decoded(line) <= Decoded(line + [octet])
  {
    var colon := FirstColon(line);
    var value := if colon < |line| then TrimLeft(line[colon + 1..]) else [];
    TrimRightShorter(value);
    var c := if colon == |line| then Count(false, false, |line|, 0)
             else Count(true, value != [], colon + |TrimRight(value)|, |value| - |TrimRight(value)|);
    AgreesMore(c, line, octet, 0);
  }

  lemma {:induction false} DecodedShorter(line: seq<byte>)
    ensures Decoded(line) <= |line|
  {
    if line != [] {
      var colon := FirstColon(line);
      if colon < |line| {
        TrimLeftShorter(line[colon + 1..]);
        TrimRightShorter(TrimLeft(line[colon + 1..]));
      }
    }
  }

  lemma {:induction false} TrimLeftShorter(s: seq<byte>)
    ensures |TrimLeft(s)| <= |s|
  {
    if s != [] && Blank(s[0]) { TrimLeftShorter(s[1..]); }
  }

  // ----- whole heads, with one gate only

  predicate LineFits(p: Policy, line: seq<byte>, fields: nat, charged: nat) {
    && charged + |line| + 2 <= p.headBytes
    && (line != [] ==> fields < p.fieldCount)
    && Decoded(line) <= p.fieldBytes
  }

  /** One field line and what is behind it. */
  function FieldLine(p: Policy, input: seq<byte>, fields: nat, charged: nat): Option<(seq<byte>, seq<byte>)> {
    var n := LineEnd(input);
    if n + 1 >= |input| || input[n] != CR || input[n + 1] != LF || !LineFits(p, input[..n], fields, charged) then None
    else Some((input[..n], input[n + 2..]))
  }

  function Lower(name: seq<byte>): (lower: seq<byte>)
    ensures |lower| == |name|
  {
    seq(|name|, i requires 0 <= i < |name| => var b: int := name[i]; if 65 <= b <= 90 then b + 32 else b)
  }

  function FieldOf(p: Policy, line: seq<byte>): Option<Field> {
    if FirstColon(line) == |line| || !p.nameOk(Name(line)) || !p.utf8(line[FirstColon(line) + 1..])
        || !p.valueOk(Value(line)) then None
    else Some(Field(Lower(Name(line)), Value(line)))
  }

  /** The fields down to the empty line; no second count is kept. */
  function Fields(p: Policy, input: seq<byte>, fields: seq<Field>, charged: nat): Option<(seq<Field>, seq<byte>)>
    decreases |input|
  {
    match FieldLine(p, input, |fields|, charged)
    case None => None
    case Some((line, rest)) =>
      if line == [] then Some((fields, rest))
      else match FieldOf(p, line)
        case None => None
        case Some(f) => Fields(p, rest, fields + [f], charged + |line| + 2)
  }

  function Head(p: Policy, input: seq<byte>): Option<(nat, seq<Field>, seq<byte>)> {
    match FirstLine(input, p.headBytes)
    case None => None
    case Some((line, rest)) =>
      match p.statusOf(line)
      case None => None
      case Some(status) =>
        match Fields(p, rest, [], |line| + 2) case None => None case Some((fields, end)) => Some((status, fields, end))
  }

  // ----- the reader, with both gates

  class FieldByteAccounting {
    var inValue: bool
    var valueStarted: bool
    var decoded: nat
    var pendingWhitespace: nat

    ghost function View(): Count reads this { Count(inValue, valueStarted, decoded, pendingWhitespace) }

    constructor ()
      ensures View() == Count(false, false, 0, 0)
    {
      inValue, valueStarted, decoded, pendingWhitespace := false, false, 0, 0;
    }

    method Observe(octet: byte, maximum: nat) returns (ok: bool)
      modifies this
      ensures ok == Counting(old(View()), octet, maximum).Some?
      ensures ok ==> View() == Counting(old(View()), octet, maximum).value
    {
      ok := true;
      if !inValue && octet == COLON {
        inValue := true;
      } else if inValue && (octet == 32 || octet == 9) {
        if valueStarted { pendingWhitespace := pendingWhitespace + 1; }
      } else {
        if decoded + pendingWhitespace + 1 > maximum { return false; }
        decoded, pendingWhitespace, valueStarted := decoded + pendingWhitespace + 1, 0, valueStarted || inValue;
      }
    }
  }

  /** The policy's own field reader. */
  class HeadReader {
    const fieldBytes: nat
    const fieldCount: nat
    const headBytes: nat
    var bytes: nat
    var fields: nat

    constructor (p: Policy)
      ensures fieldBytes == p.fieldBytes && fieldCount == p.fieldCount && headBytes == p.headBytes
      ensures bytes == fields == 0
    {
      fieldBytes, fieldCount, headBytes, bytes, fields := p.fieldBytes, p.fieldCount, p.headBytes, 0, 0;
    }

    method ReadField(name: seq<byte>, value: seq<byte>) returns (ok: bool)
      modifies this
      ensures ok <==>
                |name| + |value| <= fieldBytes && old(fields) < fieldCount && old(bytes) + |name| + |value| <= headBytes
      ensures bytes == old(bytes) + (if ok then |name| + |value| else 0) && fields == old(fields) + if ok then 1 else 0
    {
      var field := |name| + |value|;
      if field > fieldBytes { return false; }
      if fields + 1 > fieldCount { return false; }
      if bytes + field > headBytes { return false; }
      fields, bytes, ok := fields + 1, bytes + field, true;
    }
  }

  /** What an unfinished line already rules out. */
  lemma Unfinished(p: Policy, input: seq<byte>, n: nat, fields: nat, charged: nat)
    requires n <= |input| && forall i :: 0 <= i < n ==> input[i] != CR && input[i] != LF
    requires
      || charged + n >= p.headBytes || n == |input|
      || input[n] == LF
      || (input[n] == CR && (charged + n + 1 >= p.headBytes || n + 1 == |input| || input[n + 1] != LF))
      || (input[n] != CR && (fields >= p.fieldCount || Counted(input[..n + 1], p.fieldBytes).None?))
    ensures FieldLine(p, input, fields, charged).None?
  {
    var m := LineEnd(input);
    if n < |input| && input[n] != CR && input[n] != LF && m < |input| && fields < p.fieldCount
       && Counted(input[..n + 1], p.fieldBytes).None? {
      CountedIff(input[..n + 1], p.fieldBytes);
      DecodedPrefix(input[..m], n + 1);
      assert input[..m][..n + 1] == input[..n + 1];
    }
  }

  lemma {:induction false} DecodedPrefix(line: seq<byte>, n: nat)
    requires n <= |line|
    ensures Decoded(line[..n]) <= Decoded(line)
    decreases |line|
  {
    if n == |line| {
      assert line[..n] == line;
    } else {
      var shorter := line[..|line| - 1];
      DecodedPrefix(shorter, n);
      assert shorter[..n] == line[..n];
      DecodedGrows(shorter, line[|line| - 1]);
      assert line == shorter + [line[|line| - 1]];
    }
  }

  lemma Finished(p: Policy, input: seq<byte>, n: nat, fields: nat, charged: nat)
    requires n + 1 < |input| && (forall i :: 0 <= i < n ==> input[i] != CR && input[i] != LF)
    requires input[n] == CR && input[n + 1] == LF && charged + n + 2 <= p.headBytes
    requires (n > 0 ==> fields < p.fieldCount) && Counted(input[..n], p.fieldBytes).Some?
    ensures FieldLine(p, input, fields, charged) == Some((input[..n], input[n + 2..]))
  {
    CountedIff(input[..n], p.fieldBytes);
    LineEndAt(input, n);
  }

  lemma {:induction false} LineEndAt(s: seq<byte>, n: nat)
    requires n < |s| && (s[n] == CR || s[n] == LF) && forall i :: 0 <= i < n ==> s[i] != CR && s[i] != LF
    ensures LineEnd(s) == n
    decreases n
  {
    if n > 0 { LineEndAt(s[1..], n - 1); }
  }

  lemma CountedNothing(maximum: nat)
    ensures Counted([], maximum) == Some(Count(false, false, 0, 0))
  {
  }

  lemma CountedMore(line: seq<byte>, octet: byte, maximum: nat)
    ensures Counted(line + [octet], maximum) ==
            match Counted(line, maximum) case None => None case Some(c) => Counting(c, octet, maximum)
  {
    assert (line + [octet])[..|line|] == line;
  }

  /** Both counts are made while the line arrives, and nothing past a bound is collected. */
  method ReadFieldLine(stream: Transport, p: Policy, fields: nat, already: nat)
      returns (line: Option<seq<byte>>, charged: nat)
    modifies stream
    ensures line == match FieldLine(p, old(stream.unread), fields, already)
                    case None => None
                    case Some((l, _)) => Some(l)
    ensures line.Some? ==>
              stream.unread == FieldLine(p, old(stream.unread), fields, already).value.1
                  && charged == already + |line.value| + 2
  {
    hide FieldLine, Decoded, Counting, Counted, LineEnd, FirstColon;
    ghost var input := stream.unread;
    var accounting := new FieldByteAccounting();
    CountedNothing(p.fieldBytes);
    var some := [];
    charged := already;
    while true
      invariant |some| <= |input| && some == input[..|some|] && stream.unread == input[|some|..]
      invariant forall i :: 0 <= i < |some| ==> input[i] != CR && input[i] != LF
      invariant charged == already + |some| && (some != [] ==> fields < p.fieldCount)
      invariant Counted(some, p.fieldBytes) == Some(accounting.View())
      decreases |stream.unread|
    {
      if charged >= p.headBytes { Unfinished(p, input, |some|, fields, already); return None, charged; }
      var octet := stream.ReadOctet();
      if octet.None? { Unfinished(p, input, |some|, fields, already); return None, charged; }
      charged := charged + 1;
      if octet.value == CR {
        line, charged := ReadFeed(stream, p, some, input, fields, charged);
        return;
      }
      if octet.value == LF || fields >= p.fieldCount {
        Unfinished(p, input, |some|, fields, already);
        return None, charged;
      }
      var ok := accounting.Observe(octet.value, p.fieldBytes);
      var next := some + [octet.value];
      CountedMore(some, octet.value, p.fieldBytes);
      assert next == input[..|some| + 1];
      if !ok { Unfinished(p, input, |some|, fields, already); return None, charged; }
      some := next;
    }
  }

  /** The line feed that must follow the carriage return. */
  method ReadFeed(stream: Transport, p: Policy, some: seq<byte>, ghost input: seq<byte>, ghost fields: nat,
                  already: nat)
    returns (line: Option<seq<byte>>, charged: nat)
    requires |some| < |input| && some == input[..|some|] && input[|some|] == CR && stream.unread == input[|some| + 1..]
    requires forall i :: 0 <= i < |some| ==> input[i] != CR && input[i] != LF
    requires already >= |some| + 1 && (some != [] ==> fields < p.fieldCount) && Counted(some, p.fieldBytes).Some?
    modifies stream
    ensures var start := already - |some| - 1;
            && line == (match FieldLine(p, input, fields, start) case None => None case Some((l, _)) => Some(l))
            && (line.Some? ==>
                  stream.unread == FieldLine(p, input, fields, start).value.1 && charged == already + 1
                      && line.value == some)
  {
    hide FieldLine, Decoded;
    ghost var start := already - |some| - 1;
    charged := already;
    if charged >= p.headBytes { Unfinished(p, input, |some|, fields, start); return None, charged; }
    var octet := stream.ReadOctet();
    if octet.None? { Unfinished(p, input, |some|, fields, start); return None, charged; }
    charged := charged + 1;
    if octet.value != LF { Unfinished(p, input, |some|, fields, start); return None, charged; }
    Finished(p, input, |some|, fields, start);
    line := Some(some);
  }

  /**
   * The head reader calls both gates.  Its result is that of the head with one gate: the field reader has
   * accepted every field it was shown.
   */
  method ReadHead(stream: Transport, p: Policy) returns (head: Option<(nat, seq<Field>)>)
    modifies stream
    ensures head == match Head(p, old(stream.unread)) case None => None case Some((s, fields, _)) => Some((s, fields))
    ensures head.Some? ==> stream.unread == Head(p, old(stream.unread)).value.2
  {
    hide FieldLine, Decoded, FirstLine, FieldOf;
    var first := ReadChunkLine(stream, p.headBytes);
    if first.None? { return None; }
    var charged := |first.value| + 2;
    var status := p.statusOf(first.value);
    if status.None? { return None; }
    ghost var start := stream.unread;
    var reader := new HeadReader(p);
    var fields: seq<Field> := [];
    while true
      invariant reader.fieldBytes == p.fieldBytes && reader.fieldCount == p.fieldCount
                  && reader.headBytes == p.headBytes
      invariant reader.fields == |fields| && reader.bytes <= charged
      invariant Fields(p, stream.unread, fields, charged) == Fields(p, start, [], |first.value| + 2)
      decreases |stream.unread|
    {
      ghost var input := stream.unread;
      var line, now := ReadFieldLine(stream, p, reader.fields, charged);
      if line.None? { return None; }
      Shown(p, input, |fields|, charged);
      charged := now;
      if line.value == [] {
        return Some((status.value, fields));
      }
      var field := ShowField(reader, p, line.value);
      if field.None? { return None; }
      fields := fields + [field.value];
    }
  }

  /** A line the first gate let through, split and shown to the second, which accepts it. */
  method ShowField(reader: HeadReader, p: Policy, line: seq<byte>) returns (field: Option<Field>)
    requires reader.fieldBytes == p.fieldBytes && reader.fieldCount == p.fieldCount && reader.headBytes == p.headBytes
    requires Decoded(line) <= p.fieldBytes && reader.fields < p.fieldCount
               && reader.bytes + Decoded(line) <= p.headBytes
    modifies reader
    ensures field == FieldOf(p, line)
    ensures field.Some? ==> reader.fields == old(reader.fields) + 1 && reader.bytes == old(reader.bytes) + Decoded(line)
  {
    var colon := FirstColon(line);
    if colon == |line| || !p.nameOk(line[..colon]) || !p.utf8(line[colon + 1..]) { return None; }
    var name, value := Lower(line[..colon]), Trimmed(line[colon + 1..]);
    var ok := reader.ReadField(name, value);
    assert ok;
    if !p.valueOk(value) { return None; }
    field := Some(Field(name, value));
  }

  /** What a line that was let through says to the second gate. */
  lemma Shown(p: Policy, input: seq<byte>, fields: nat, charged: nat)
    requires FieldLine(p, input, fields, charged).Some?
    ensures var (line, rest) := FieldLine(p, input, fields, charged).value;
            && |rest| < |input| && charged + |line| + 2 <= p.headBytes && (line != [] ==> fields < p.fieldCount)
            && Decoded(line) <= p.fieldBytes && Decoded(line) <= |line|
  {
    DecodedShorter(FieldLine(p, input, fields, charged).value.0);
  }

  // ----- what a field line says

  /** Only blanks are trimmed, and all of them at both ends. */
  lemma {:induction false} TrimLeftOff(blanks: seq<byte>, s: seq<byte>)
    requires (forall i :: 0 <= i < |blanks| ==> Blank(blanks[i])) && (s == [] || !Blank(s[0]))
    ensures TrimLeft(blanks + s) == s
    decreases |blanks|
  {
    if blanks == [] {
      assert blanks + s == s;
    } else {
      assert (blanks + s)[1..] == blanks[1..] + s;
      TrimLeftOff(blanks[1..], s);
    }
  }

  lemma {:induction false} TrimRightOff(s: seq<byte>, blanks: seq<byte>)
    requires (forall i :: 0 <= i < |blanks| ==> Blank(blanks[i])) && (s == [] || !Blank(s[|s| - 1]))
    ensures TrimRight(s + blanks) == s
    decreases |blanks|
  {
    if blanks == [] {
      assert s + blanks == s;
    } else {
      var fewer := blanks[..|blanks| - 1];
      assert (s + blanks)[..|s + blanks| - 1] == s + fewer;
      TrimRightOff(s, fewer);
    }
  }

  /**
   * How a field is written: a name, a colon, blanks that do not count, a value that neither starts nor ends
   * with one, blanks that do not count.  Name and value are read back, and only their octets are counted.
   */
  lemma FieldLineRead(name: seq<byte>, left: seq<byte>, value: seq<byte>, right: seq<byte>)
    requires COLON !in name && (value != [] ==> !Blank(value[0]) && !Blank(value[|value| - 1]))
    requires forall i :: 0 <= i < |left| ==> Blank(left[i])
    requires (forall i :: 0 <= i < |right| ==> Blank(right[i])) && (value == [] ==> right == [])
    ensures var line := name + [COLON] + left + value + right;
            Name(line) == name && Value(line) == value && Decoded(line) == |name| + |value|
  {
    var line := name + [COLON] + left + value + right;
    assert line == name + ([COLON] + left + value + right);
    ColonBehind(name, [COLON] + left + value + right);
    assert line[..|name|] == name && line[|name| + 1..] == left + (value + right);
    if value != [] { assert (value + right)[0] == value[0]; }
    TrimLeftOff(left, value + right);
    TrimRightOff(value, right);
  }

  /** Names lose their capitals and nothing else. */
  lemma LowerIs(name: seq<byte>, i: nat)
    requires i < |name|
    ensures 65 <= name[i] <= 90 ==> Lower(name)[i] == name[i] as int + 32
    ensures !(65 <= name[i] <= 90) ==> Lower(name)[i] == name[i]
  {
  }
}
