/** The finite response assembler in place: a live header block, receive windows, and a body buffer. */
module Http2FiniteResponse {
  import opened Bytes
  import opened HuffmanTree
  import opened HpackTable
  import opened HpackBlock
  import opened Http2Frames
  import opened Http2Response
  import Assembly = Http2Response
  import Blocks = HpackResponseBlock
  import Trie = HuffmanTrie
  import Headers = Http2Headers
  import Flow = Http2Flow

  class FiniteResponse {
    const contract: Contract
    const nodes: seq<Trie.Record>
    const windows: Flow.ReceiveWindows
    var block: Blocks.ResponseBlock?
    var head: Option<(nat, seq<Field>)>
    var headerEnd: bool
    var ended: bool
    var expected: Option<nat>
    var body: seq<byte>
    var poisoned: bool

    ghost function Live(): set<object>
      reads this`block, block, if block != null then block.Reader(block.state) else {}
    {
      if block == null then {} else block.Footprint()
    }

    ghost predicate Fixed() {
      && contract.tree.Node? && Depth(contract.tree) <= 30 && Trie.Spells(nodes, 0, contract.tree)
      && contract.statics == StaticFields() && contract.encodedMaximum <= U64_MAX
    }

    /** A block in progress reads with this response's tree and policy and has not been refused. */
    ghost predicate BlockOk()
      reads this`block, block, if block != null then block.Reader(block.state) else {}, Live()
    {
      block != null ==>
        && block.Valid() && block.View().Ok?
        && this !in block.Footprint() && windows !in block.Footprint()
        && block.tree == contract.tree
        && block.policy == Headers.AsPolicy(contract.bounds) && block.closes == Headers.AsEnd(contract.bounds)
    }

    ghost predicate Valid()
      reads this, block, if block != null then block.Reader(block.state) else {}, Live(), windows
    {
      && Fixed()
      && (!poisoned ==> BlockOk() && windows.connection == windows.stream == Flow.INITIAL_WINDOW)
    }

    ghost function Shell(): Response reads this`head, this`headerEnd, this`ended, this`expected, this`body {
      Response(None, head, headerEnd, ended, expected, body)
    }

    ghost function Full(): Response
      reads this`head, this`headerEnd, this`ended, this`expected, this`body, this`block
      reads block, if block != null then block.Reader(block.state) else {}, Live()
      requires BlockOk()
    {
      Shell().(block := if block == null then None else Some(block.View().block))
    }

    ghost function View(): Option<Response>
      reads this, block, if block != null then block.Reader(block.state) else {}, Live(), windows
      requires Valid()
    {
      if poisoned then None else Some(Full())
    }

    constructor (contract: Contract, nodes: seq<Trie.Record>)
      requires contract.tree.Node? && Depth(contract.tree) <= 30 && Trie.Spells(nodes, 0, contract.tree)
      requires contract.statics == StaticFields() && contract.encodedMaximum <= U64_MAX
      ensures Valid() && View() == Some(Unstarted()) && this.contract == contract
      ensures fresh(windows) && fresh(Live())
    {
      this.contract, this.nodes := contract, nodes;
      block, head, headerEnd, ended, expected, body, poisoned := null, None, false, false, None, [], false;
      windows := new Flow.ReceiveWindows();
    }

    method InstallHead(status: nat, headers: seq<Field>, end: bool) returns (ok: bool)
      modifies this
      ensures block == old(block) && poisoned == old(poisoned)
      ensures ok == Installable(contract, status, headers, end)
      ensures ok ==> Some(Shell()) == Install(contract, old(Shell()), (status, headers), end)
    {
      hide DeclaredLength;
      var declared := DeclaredLength(headers);
      if !contract.finiteHead(status, headers) || declared.None? { return false; }
      expected := declared.value;
      if expected.Some? {
        var length := expected.value;
        if length > contract.bodyMaximum || status == NO_CONTENT || (status == RESET_CONTENT && length != 0)
            || (end && length != 0) {
          return false;
        }
      }
      head, ended, ok := Some((status, headers)), end, true;
    }

    /** The block this fragment belongs to: a new one behind HEADERS, the open one behind CONTINUATION. */
    method OpenBlock(f: Frame) returns (ok: bool)
      requires Fixed() && BlockOk() && poisoned && (f.kind == HEADERS || f.kind == CONTINUATION)
      modifies this
      ensures BlockOk() && poisoned && fresh(Live() - old(Live()))
      ensures ok == (head.None? && (f.kind == HEADERS <==> old(block) == null))
      ensures ok ==> block != null && Full() == old(Full()).(
                block := if f.kind == HEADERS then Some(contract.Opened()) else old(Full()).block,
                headerEnd := if f.kind == HEADERS then f.EndStream() else old(headerEnd))
      ensures !ok ==> Full() == old(Full())
    {
      hide Trie.Spells, Depth, StaticFields;
      ok := head.None?;
      if ok && f.kind == HEADERS {
        ok := block == null;
        if ok {
          var table := new HeaderTable();
          var policy, closes := Headers.AsPolicy(contract.bounds), Headers.AsEnd(contract.bounds);
          var started := new Blocks.ResponseBlock(nodes, contract.tree, policy, closes, table, contract.encodedMaximum);
          block, headerEnd := started, f.EndStream();
        }
      }
      ok := ok && block != null;
    }

    /** A block that has all its fragments gives up its head, if it has a lawful one. */
    method CloseBlock() returns (ok: bool)
      requires BlockOk() && poisoned && block != null
      modifies this
      ensures poisoned && block == null
      ensures var done := Assembly.HeadOf(contract, old(Full()).block.value);
              var closed := match done
                case None => None
                case Some(h) => Install(contract, old(Full()), h, old(headerEnd));
              ok == closed.Some? && (ok ==> Full() == closed.value)
    {
      hide Installable, DeclaredLength;
      var told := block.Finish();
      block, ok := null, false;
      if told.None? { return; }
      var done := Headers.HeadTold(contract.bounds, told.value);
      ok := InstallHead(done.value.0, done.value.1, headerEnd);
    }

    method Poison()
      modifies this`poisoned
      ensures poisoned && Live() == old(Live())
    {
      poisoned := true;
    }

    /** Marking the response touches nothing else. */
    method Mark(mark: bool)
      requires BlockOk()
      modifies this`poisoned
      ensures poisoned == mark && BlockOk() && Full() == old(Full()) && Live() == old(Live())
    {
      poisoned := mark;
    }

    method TakeHead(f: Frame) returns (ok: bool)
      requires Fixed() && BlockOk() && poisoned && (f.kind == HEADERS || f.kind == CONTINUATION)
      modifies this, Live()
      ensures poisoned && forall o: object :: o in Live() && o !in old(Live()) ==> fresh(o)
      ensures ok == AcceptHead(contract, old(Full()), f).Some?
      ensures ok ==> BlockOk() && Full() == AcceptHead(contract, old(Full()), f).value
    {
      hide Trie.Spells, Depth, StaticFields, Codec.Run, Installable, Assembly.HeadOf;
      hide Blocks.ResponseBlock.Valid, Blocks.ResponseBlock.View, Blocks.ResponseBlock.Footprint;
      ok := OpenBlock(f);
      ghost var live := Live();
      if !ok { return; }
      label pushing:
      ok := block.Push(f.payload);
      assert fresh@pushing(block.Footprint() - old@pushing(block.Footprint()));
      forall o: object | o in Live() && o !in old(Live()) ensures fresh(o) {
        if o in live { assert fresh(o); }
        else {
          assert o in block.Footprint() - old@pushing(block.Footprint());
          assert fresh@pushing(o);
          assert fresh(o);
        }
      }
      if ok && f.EndHeaders() {
        ok := CloseBlock();
      }
    }

    method TakeData(f: Frame) returns (ok: bool, credits: Option<(seq<byte>, seq<byte>)>)
      requires Fixed() && BlockOk() && poisoned && f.kind == DATA
      requires windows.connection == windows.stream == Flow.INITIAL_WINDOW
      modifies this, windows
      ensures poisoned && block == old(block) && BlockOk() && Live() == old(Live())
      ensures ok == AcceptData(contract, old(Full()), f).Some?
      ensures ok ==> Full() == AcceptData(contract, old(Full()), f).value
      ensures ok ==> windows.connection == windows.stream == Flow.INITIAL_WINDOW
      ensures credits == if !ok || |f.payload| == 0 then None
                         else Some((Wire(Flow.Update(0, |f.payload|)), Wire(Flow.Update(1, |f.payload|))))
    {
      hide Trie.Spells, Depth, StaticFields, Flow.DataContent, Wire, Flow.Update;
      ok, credits := false, None;
      if head.None? || block != null { return; }
      var permit, content := windows.ReceiveFrame(f);
      if permit == null { return; }
      var length := |body| + |content|;
      if length > contract.bodyMaximum { return; }
      if (expected.Some? && length > expected.value) || (Bodiless(head.value.0) && content != []) { return; }
      body, ended := body + content, f.EndStream();
      if ended && expected.Some? && length != expected.value { return; }
      credits := permit.Release();
      ok := true;
    }

    /** Poisoned before any work; only a frame taken whole lifts it again. */
    method Accept(f: Frame) returns (ok: bool, credits: Option<(seq<byte>, seq<byte>)>)
      requires Valid()
      modifies this, windows, Live()
      ensures Valid() && forall o: object :: o in Live() && o !in old(Live()) ==> fresh(o)
      ensures View() == match old(View()) case None => None case Some(r) => Assembly.Accept(contract, r, f)
      ensures ok == View().Some?
      ensures credits == if !ok || Credit(f) == 0 then None
                         else Some((Wire(Flow.Update(0, Credit(f))), Wire(Flow.Update(1, Credit(f)))))
    {
      hide Trie.Spells, Depth, StaticFields, AcceptHead, AcceptData;
      hide Blocks.ResponseBlock.Valid, Blocks.ResponseBlock.View, Blocks.ResponseBlock.Footprint;
      ok, credits := false, None;
      if poisoned || ended || f.stream != 1 {
        Poison();
        return;
      }
      Mark(true);
      if f.kind == HEADERS || f.kind == CONTINUATION {
        ok := TakeHead(f);
      } else if f.kind == DATA {
        ok, credits := TakeData(f);
      }
      if ok {
        Mark(false);
      }
    }

    /** No partial response: only an ended, unpoisoned one with its head and no open block. */
    method Finish() returns (response: Option<(nat, seq<Field>, seq<byte>)>)
      requires Valid()
      ensures response == match View() case None => None case Some(r) => Assembly.Finish(contract, r)
    {
      if !ended || poisoned || block != null || head.None? || !contract.collected(head.value.0, head.value.1, body) {
        return None;
      }
      response := Some((head.value.0, head.value.1, body));
    }
  }
}
