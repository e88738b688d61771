/** The block decoder in place: nested readers, the live table, and fragments of any size. */
module HpackResponseBlock {
  import opened Bytes
  import opened HuffmanTree
  import opened HpackTable
  import opened HpackSink
  import opened HpackBlock
  import Int = HpackInteger
  import Str = HpackString
  import Strings = HpackHuffmanString
  import Trie = HuffmanTrie

  /** The readers in progress belong to the state and are replaced with it. */
  datatype State =
    | AtInstruction
    | AtIndex(integer: Int.PrefixedInteger, purpose: Purpose)
    | AtNameStart(indexing: bool)
    | AtName(string_: Str.LiteralString, indexing: bool)
    | AtValueStart(indexing: bool)
    | AtValue(string_: Str.LiteralString, indexing: bool)
    | Poisoned

  /** A sink's verdict on text is its verdict on the text's events. */
  lemma AdmittedIsTaken(policy: Policy, log: Log, out: seq<byte>, name: bool)
    ensures Strings.Admitted((text: seq<byte>) => policy(log + TextEvents(text, name)), out)
       <==> Takes(policy, log, TextEvents(out, name))
  {
    var events := TextEvents(out, name);
    assert forall k :: 0 < k <= |out| ==> TextEvents(out[..k], name) == events[..k];
  }

  /** What becomes of a block whose string has taken an octet and told its text. */
  ghost function Settled(c: Codec, b: Block, status: Str.Status, name: bool, indexing: bool): Outcome
    requires !status.Broken?
  {
    match status
    case Whole => if name then c.Tell(b, BeginValue, ValueStart(indexing)) else c.EndField(b, indexing)
    case Active(literal) =>
      if !c.WithinBudget(b, literal) then Refused(true)
      else Ok(b.(phase := if name then NameText(literal, indexing) else ValueText(literal, indexing)))
  }

  class ResponseBlock {
    const nodes: seq<Trie.Record>
    ghost const tree: Tree
    const policy: Policy
    const closes: Policy
    const table: HeaderTable
    const maximumEncodedBytes: nat
    var state: State
    var log: Log
    var capture: Option<Field>
    var seenField: bool
    var encodedBytes: nat
    var encodedLimitExceeded: bool

    ghost function Coder(): Codec {
      Codec(tree, StaticFields(), policy)
    }

    ghost function Reader(s: State): set<object> {
      match s
      case AtIndex(i, _) => {i}
      case AtName(l, _) => {l}
      case AtValue(l, _) => {l}
      case _ => {}
    }

    /** The objects a state holds. */
    ghost function Held(s: State): set<object> reads Reader(s) {
      match s
      case AtIndex(i, _) => {i}
      case AtName(l, _) => l.Footprint()
      case AtValue(l, _) => l.Footprint()
      case _ => {}
    }

    ghost function Footprint(): set<object> reads this, Reader(state) {
      {this, table} + Held(state)
    }

    ghost predicate Sound() reads this, table {
      && tree.Node? && Depth(tree) <= 30 && Trie.Spells(nodes, 0, tree)
      && table.Valid()
      && encodedBytes <= maximumEncodedBytes <= U64_MAX
    }

    ghost predicate Valid() reads this, Reader(state), Footprint() {
      Sound() && (state != Poisoned ==> !encodedLimitExceeded) && Live(state)
    }

    ghost predicate Live(s: State) reads Reader(s), Held(s) {
      match s
      case AtIndex(i, _) => i.Valid() && i.View().More?
      case AtName(l, _) => Active(l)
      case AtValue(l, _) => Active(l)
      case _ => true
    }

    ghost predicate Active(s: Str.LiteralString) reads s, s.Footprint() {
      s.Valid() && s.View().Active? && s.tree == tree && s.nodes == nodes
    }

    ghost function PhaseOf(s: State): Phase reads Reader(s), Held(s)
      requires Live(s) && s != Poisoned
    {
      match s
      case AtInstruction => Instruction
      case AtIndex(i, purpose) => Index(i.View().partial, purpose)
      case AtNameStart(indexing) => NameStart(indexing)
      case AtName(l, indexing) => NameText(l.View().literal, indexing)
      case AtValueStart(indexing) => ValueStart(indexing)
      case AtValue(l, indexing) => ValueText(l.View().literal, indexing)
    }

    /** Everything but the phase. */
    ghost function Core(): Block reads this, table {
      Block(Instruction, table.View(), log, capture, seenField, encodedBytes, maximumEncodedBytes)
    }

    ghost function View(): Outcome reads this, Reader(state), Footprint()
      requires Valid()
    {
      if state == Poisoned then Refused(encodedLimitExceeded) else Ok(Core().(phase := PhaseOf(state)))
    }

    /** The sink is its policy on what it is told, and on whether it may end there. */
    constructor (nodes: seq<Trie.Record>, ghost tree: Tree, policy: Policy, closes: Policy, table: HeaderTable,
                 maximum: nat)
      requires tree.Node? && Depth(tree) <= 30 && Trie.Spells(nodes, 0, tree)
      requires table.Valid() && maximum <= U64_MAX
      ensures Valid() && View() == Ok(Fresh(table.View(), maximum))
      ensures this.tree == tree && this.policy == policy && this.closes == closes && this.table == table
      ensures fresh(Footprint() - {table})
    {
      this.nodes, this.tree, this.policy, this.closes := nodes, tree, policy, closes;
      this.table, maximumEncodedBytes := table, maximum;
      state, log, capture, seenField, encodedBytes, encodedLimitExceeded := AtInstruction, [], None, false, 0, false;
    }

    // ----- steps, all taken with the state already out of the block

    ghost predicate Taken() reads this, table {
      Sound() && state == Poisoned && !encodedLimitExceeded
    }

    method Tell(event: Event, next: State) returns (ok: bool)
      requires Taken() && (next.AtInstruction? || next.AtNameStart? || next.AtValueStart?)
      modifies this
      ensures Valid() && Footprint() == {this, table}
      ensures ok == Offer(policy, old(log), [event]).Some?
      ensures ok ==> state == next && Core() == old(Core()).(log := old(log) + [event])
      ensures !ok ==> View() == Refused(false)
    {
      assert [event][..1] == [event];
      ok := policy(log + [event]);
      if ok {
        log := log + [event];
        state := next;
      }
    }

    method Emit(text: seq<byte>, name: bool) returns (ok: bool)
      requires Taken()
      modifies this
      ensures Taken()
      ensures match Coder().Emit(old(Core()), text, name)
              case Refused(_) => !ok
              case Ok(b) => ok && Core() == b
    {
      hide Trie.Spells, Depth, StaticFields, Charge, Kept;
      ghost var before, events := log, TextEvents(text, name);
      assert before + events[..0] == before;
      for i := 0 to |text|
        invariant Taken()
        invariant forall k :: 0 < k <= i ==> policy(before + events[..k])
        invariant Core() == old(Core()).(log := before + events[..i], capture := Capture(old(capture), text[..i], name))
      {
        var event := if name then NameOctet(text[i]) else ValueOctet(text[i]);
        assert before + events[..i] + [event] == before + events[..i + 1];
        if !policy(log + [event]) {
          return false;
        }
        log := log + [event];
        assert text[..i + 1] == text[..i] + [text[i]];
        CaptureAppend(old(capture), text[..i], [text[i]], name);
        assert Capture(capture, [text[i]], name) == CaptureOctet(capture, text[i], name);
        if capture.Some? {
          var f := capture.value;
          if |f.name| + |f.value| + 32 >= MAXIMUM_DYNAMIC_TABLE_BYTES {
            capture := None;
          } else {
            capture := Some(if name then f.(name := f.name + [text[i]]) else f.(value := f.value + [text[i]]));
          }
        }
      }
      assert text[..|text|] == text && events[..|text|] == events;
      ok := true;
    }

    method EndField(indexing: bool) returns (ok: bool)
      requires Taken()
      modifies this, table
      ensures Valid() && Footprint() == {this, table}
      ensures View() == Coder().EndField(old(Core()), indexing) && ok == View().Ok?
    {
      ok := Tell(HpackSink.EndField, AtInstruction);
      if ok && indexing {
        if capture.Some? {
          table.Insert(capture.value.name, capture.value.value);
        } else {
          table.Clear();
        }
        capture := None;
      }
    }

    method EmitField(f: Field) returns (ok: bool)
      requires Taken()
      modifies this
      ensures Valid() && Footprint() == {this, table}
      ensures match Offer(policy, old(log), FieldEvents(f))
              case None => View() == Refused(false)
              case Some(after) => View() == Ok(old(Core()).(log := after))
      ensures ok == View().Ok?
    {
      hide Trie.Spells, Depth, StaticFields, Charge, Kept;
      ghost var before, core := log, Core();
      ghost var all := FieldEvents(f);
      ok := true;
      var events := FieldEvents(f);
      for i := 0 to |events|
        invariant Taken() && Core() == core.(log := before + all[..i])
        invariant forall k :: 0 < k <= i ==> policy(before + all[..k])
      {
        assert before + all[..i] + [events[i]] == before + all[..i + 1];
        if !policy(log + [events[i]]) {
          return false;
        }
        log := log + [events[i]];
      }
      assert all[..|events|] == all;
      state := AtInstruction;
    }

    method OnInteger(value: nat, purpose: Purpose) returns (ok: bool)
      requires Taken()
      modifies this, table
      ensures Valid() && Footprint() == {this, table}
      ensures View() == Coder().OnInteger(old(Core()), value, purpose) && ok == View().Ok?
    {
      match purpose
      case Resizing =>
        ok := table.Resize(value);
        if ok { state := AtInstruction; }
      case Indexed =>
        var field := table.Lookup(value);
        ok := false;
        if field.Some? {
          ok := EmitField(field.value);
        }
      case Named(indexing) =>
        ok := OnName(value, indexing);
    }

    method OnName(value: nat, indexing: bool) returns (ok: bool)
      requires Taken()
      modifies this
      ensures Valid() && Footprint() == {this, table}
      ensures View() == Coder().OnInteger(old(Core()), value, Named(indexing)) && ok == View().Ok?
    {
      hide Trie.Spells, Depth, Charge, StaticFields, Capture, TextEvents;
      ok := Tell(BeginField, AtNameStart(indexing));
      if !ok {
        return;
      }
      capture := if indexing then Some(Field([], [])) else None;
      if value == 0 {
        return;
      }
      state := Poisoned;
      ok := KnownName(value, indexing);
    }

    /** A name taken from the table, told at once. */
    method KnownName(value: nat, indexing: bool) returns (ok: bool)
      requires Taken()
      modifies this
      ensures Valid() && Footprint() == {this, table}
      ensures View() == match table.View().Lookup(StaticFields(), value)
                        case None => Refused(false)
                        case Some(f) => Coder().AfterName(Coder().Emit(old(Core()), f.name, true), indexing)
      ensures ok == View().Ok?
    {
      hide Trie.Spells, Depth, Charge, StaticFields, Capture, TextEvents;
      var field := table.Lookup(value);
      ok := false;
      if field.Some? {
        ok := Emit(field.value.name, true);
        if ok {
          ok := Tell(BeginValue, AtValueStart(indexing));
        }
      }
    }

    method Begin(octet: byte) returns (ok: bool)
      requires Taken()
      modifies this, table
      ensures Valid() && fresh(Footprint() - {this, table})
      ensures View() == Coder().Begin(old(Core()), octet) && ok == View().Ok?
    {
      hide Trie.Spells, Depth, StaticFields, Charge, Codec.OnInteger;
      var prefix, purpose, maximum := 7, Indexed, MAXIMUM_INDEX;
      if octet < 128 {
        if octet / 32 == 1 {
          if seenField {
            return false;
          }
          prefix, purpose, maximum := 5, Resizing, MAXIMUM_DYNAMIC_TABLE_BYTES;
        } else {
          purpose := Named(octet >= 64);
          prefix := if octet >= 64 then 6 else 4;
        }
      }
      if !purpose.Resizing? {
        seenField := true;
      }
      var integer := new Int.PrefixedInteger(octet, prefix, maximum);
      if integer.poisoned {
        return false;
      }
      var value := integer.Value();
      if value.Some? {
        ok := OnInteger(value.value, purpose);
      } else {
        state := AtIndex(integer, purpose);
        ok := true;
      }
    }

    method Continue(integer: Int.PrefixedInteger, purpose: Purpose, octet: byte) returns (ok: bool)
      requires Taken() && integer.Valid() && integer.View().More?
      modifies this, table, integer
      ensures Valid() && Footprint() <= {this, table, integer}
      ensures View() == Coder().Integer(old(Core()), Int.Next(old(integer.View()).partial, octet), purpose)
      ensures ok == View().Ok?
    {
      ghost var p := integer.View().partial;
      assert Int.Feed(Int.More(p), [octet]) == Int.Next(p, octet);
      var value;
      ok, value := integer.Push(octet);
      if ok {
        if value.Some? {
          ok := OnInteger(value.value, purpose);
        } else {
          state := AtIndex(integer, purpose);
        }
      }
    }

    method Open(octet: byte, name: bool, indexing: bool) returns (ok: bool)
      requires Taken()
      modifies this, table
      ensures Valid() && fresh(Footprint() - {this, table})
      ensures View() == Coder().Open(old(Core()), octet, name, indexing)
      ensures ok == View().Ok?
    {
      hide Str.Start, Codec.EndField, Trie.Spells, Depth, StaticFields, Charge, Kept;
      var string_ := new Str.LiteralString(octet, maximumEncodedBytes - encodedBytes, nodes, tree);
      ok := false;
      if string_.poisoned {
        encodedLimitExceeded := true;
      } else if string_.IsComplete() {
        if !name {
          ok := EndField(indexing);
        }
      } else {
        state := if name then AtName(string_, indexing) else AtValue(string_, indexing);
        ok := true;
      }
    }

    /** One octet into a string, and what it made known on to the sink and the capture. */
    method Receive(string_: Str.LiteralString, octet: byte, name: bool) returns (ok: bool)
      requires Taken() && Active(string_)
      modifies this, string_.Footprint()
      ensures Sound() && state == Poisoned && string_.Valid() && string_.Footprint() <= old(string_.Footprint())
      ensures var step := Str.Next(tree, old(string_.View()).literal, octet);
              && (step.Refused? ==> !ok && encodedLimitExceeded == step.limit)
              && (!step.Refused? ==>
                    && !encodedLimitExceeded
                    && (!ok ==> Coder().Emit(old(Core()), step.out, name) == Refused(false))
                    && (ok ==>
                          Coder().Emit(old(Core()), step.out, name) == Ok(Core())
                              && string_.View() == Str.StatusAfter(step)))
    {
      ghost var step := Str.Next(tree, string_.View().literal, octet);
      var told, sink := log, policy;
      var accepts := (text: seq<byte>) => sink(told + TextEvents(text, name));
      var out;
      ok, out := string_.Push(octet, accepts);
      if !step.Refused? { AdmittedIsTaken(sink, told, step.out, name); }
      if ok {
        ok := Emit(out, name);
      } else {
        encodedLimitExceeded := string_.length.limitExceeded;
      }
    }

    method Text(string_: Str.LiteralString, octet: byte, name: bool, indexing: bool) returns (ok: bool)
      requires Taken() && Active(string_)
      modifies this, table, string_.Footprint()
      ensures Valid() && Footprint() <= {this, table} + old(string_.Footprint())
      ensures View() == Coder().Text(old(Core()), Str.Next(tree, old(string_.View()).literal, octet), name, indexing)
      ensures ok == View().Ok?
    {
      hide Str.Next, Codec.Emit, Codec.EndField, Codec.Tell, Trie.Spells, Depth, StaticFields, Charge;
      ok := Receive(string_, octet, name);
      if ok {
        ok := Settle(string_, name, indexing);
      }
    }

    /** A string that goes on must still fit the budget; a complete one ends its name or its field. */
    method Settle(string_: Str.LiteralString, name: bool, indexing: bool) returns (ok: bool)
      requires Taken() && string_.Valid() && !string_.View().Broken? && string_.tree == tree && string_.nodes == nodes
      modifies this, table
      ensures Valid() && Footprint() <= {this, table} + string_.Footprint()
      ensures View() == Settled(Coder(), old(Core()), string_.View(), name, indexing)
      ensures ok == View().Ok?
    {
      hide Codec.EndField, Trie.Spells, Depth, StaticFields, Charge;
      ok := false;
      if string_.remaining.Some? && string_.remaining.value > maximumEncodedBytes - encodedBytes {
        encodedLimitExceeded := true;
      } else if !string_.IsComplete() {
        state := if name then AtName(string_, indexing) else AtValue(string_, indexing);
        ok := true;
      } else if name {
        ok := Tell(BeginValue, AtValueStart(indexing));
      } else {
        ok := EndField(indexing);
      }
    }

    /** What the octet does in the state that was taken out. */
    method Dispatch(taken: State, octet: byte) returns (ok: bool)
      requires Taken() && taken != Poisoned && Live(taken)
      modifies this, table, Held(taken)
      ensures Valid() && fresh(Footprint() - {this, table} - old(Held(taken))) && ok == View().Ok?
      ensures View() == Coder().Next(old(Core()), old(PhaseOf(taken)), octet)
    {
      hide Codec.Begin, Codec.Integer, Codec.Text, Codec.Open, Str.Next, Int.Next;
      match taken
      case AtInstruction => ok := Begin(octet);
      case AtIndex(integer, purpose) => ok := Continue(integer, purpose, octet);
      case AtNameStart(indexing) => ok := Open(octet, true, indexing);
      case AtName(string_, indexing) => ok := Text(string_, octet, true, indexing);
      case AtValueStart(indexing) => ok := Open(octet, false, indexing);
      case AtValue(string_, indexing) => ok := Text(string_, octet, false, indexing);
    }

    /** The state comes out of the block before the octet is charged. */
    method Take() returns (taken: State, ok: bool)
      requires Valid() && state != Poisoned
      modifies this
      ensures taken == old(state) && state == Poisoned && Sound() && encodedLimitExceeded == !ok
      ensures Live(taken) && Held(taken) == old(Held(state)) && PhaseOf(taken) == old(PhaseOf(state))
      ensures ok == (old(encodedBytes) < maximumEncodedBytes) && Valid() && Held(state) == {}
      ensures ok ==> Core() == old(Core()).(encoded := old(encodedBytes) + 1)
    {
      hide Trie.Spells, Depth, StaticFields;
      taken := state;
      state := Poisoned;
      ok := encodedBytes + 1 <= maximumEncodedBytes;
      if ok {
        encodedBytes := encodedBytes + 1;
      } else {
        encodedLimitExceeded := true;
      }
    }

    method Step(octet: byte) returns (ok: bool)
      requires Valid() && state != Poisoned
      modifies Footprint()
      ensures Valid() && fresh(Footprint() - old(Footprint()))
      ensures View() == Coder().Step(old(View()).block, octet) && ok == View().Ok?
    {
      hide Codec.Next, Trie.Spells, Depth, StaticFields, Charge, Kept, PhaseOf, Live, Sound, Active;
      var taken;
      taken, ok := Take();
      if ok {
        ok := Dispatch(taken, octet);
      }
    }

    /** Any fragment, ending anywhere. */
    method Push(octets: seq<byte>) returns (ok: bool)
      requires Valid()
      modifies Footprint()
      ensures Valid() && fresh(Footprint() - old(Footprint()))
      ensures View() == Coder().Run(old(View()), octets)
      ensures ok == View().Ok?
    {
      hide Codec.Step, Trie.Spells, Depth, StaticFields, Charge, Kept, PhaseOf, Live, Sound, Active, Core;
      if state == Poisoned {
        return false;
      }
      for i := 0 to |octets|
        invariant Valid() && state != Poisoned && fresh(Footprint() - old(Footprint()))
        invariant Coder().Run(View(), octets[i..]) == Coder().Run(old(View()), octets)
      {
        assert octets[i..][0] == octets[i] && octets[i..][1..] == octets[i + 1..];
        ok := Step(octets[i]);
        if !ok {
          return;
        }
      }
      ok := true;
    }

    /** What a finished section was told: only between representations, and only where the sink may end. */
    ghost function Ended(): Option<Log>
      reads this, Reader(state), Footprint()
      requires Valid()
    {
      match Finished(View())
      case None => None
      case Some((told, _)) => if closes(told) then Some(told) else None
    }

    method Finish() returns (told: Option<Log>)
      requires Valid()
      ensures told == Ended()
    {
      told := if state == AtInstruction && closes(log) then Some(log) else None;
    }

    /** The next section of the same connection starts from the table this one left. */
    method FinishWithNextReader(policy: Policy, closes: Policy, maximum: nat)
      returns (told: Option<Log>, next: ResponseBlock?)
      requires Valid() && maximum <= U64_MAX
      ensures told == Ended() && told.Some? == (next != null)
      ensures next != null ==>
                && next.Valid() && next.table == table && next.tree == tree
                && next.policy == policy && next.closes == closes
                && next.View() == Ok(Fresh(Finished(View()).value.1, maximum))
    {
      told, next := None, null;
      if state == AtInstruction && this.closes(log) {
        told := Some(log);
        next := new ResponseBlock(nodes, tree, policy, closes, table, maximum);
      }
    }
  }
}
