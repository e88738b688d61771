/** How a request ends: its head as frames, and one end of stream for all of it. */
module Http2DriverEnds {
  import opened Bytes
  import opened Http2Frames
  import opened Http2Driver
  import Request = Http2Request

  /** The request's half of the stream ends here. */
  predicate Final(f: Frame) { f.kind in {0, 1} && f.flags % 2 == 1 }

  /**
   * The head frames carry the block whole, a HEADERS frame first and CONTINUATION behind it on stream 1; the
   * block ends on the last of them, and the stream on the first if there is no body.
   */
  lemma HeadIs(e: Exchange, i: nat)
    requires i < |e.Head()|
    ensures Concat(Payloads(e.Head())) == e.block
    ensures e.Head()[i].kind == (if i == 0 then 1 else 9) && e.Head()[i].stream == 1 && |e.Head()[i].payload| <= 16384
    ensures e.Head()[i].flags / 4 % 2 == 1 <==> i == |e.Head()| - 1
    ensures e.Head()[i].flags % 2 == 1 <==> i == 0 && e.body == []
  {
    Request.FragmentsJoin(e.block, e.body == []);
  }

  /** There are head frames exactly if there is a block. */
  lemma HeadNotEmpty(e: Exchange)
    ensures e.Head() == [] <==> e.block == []
  {
    Request.FragmentsJoin(e.block, e.body == []);
  }

  lemma {:induction false} DataPrefix(wire: seq<Frame>, i: nat)
    requires i <= |wire|
    ensures |DataPart(wire[..i])| <= |DataPart(wire)|
    decreases |wire|
  {
    if i == |wire| {
      assert wire[..i] == wire;
    } else {
      var before := wire[..|wire| - 1];
      DataPrefix(before, i);
      assert before[..i] == wire[..i];
    }
  }

  lemma DataAt(wire: seq<Frame>, i: nat)
    requires i < |wire| && wire[i].kind == 0
    ensures DataPart(wire[..i + 1]) == DataPart(wire[..i]) + wire[i].payload
  {
    assert wire[..i + 1][..i] == wire[..i];
  }

  lemma {:induction false} LastData(wire: seq<Frame>) returns (i: nat)
    requires DataPart(wire) != []
    ensures i < |wire| && wire[i].kind == 0 && DataPart(wire[..i + 1]) == DataPart(wire)
    decreases |wire|
  {
    i := |wire| - 1;
    if wire[i].kind == 0 {
      assert wire[..i + 1] == wire;
    } else {
      var before := wire[..i];
      i := LastData(before);
      assert before[..i + 1] == wire[..i + 1];
    }
  }

  /** A HEADERS frame that is written is the first of the head. */
  lemma HeadersFirst(e: Exchange, i: nat, f: Frame)
    requires Own(e, i, f) && f.kind == 1
    ensures i == 0 && (f.flags % 2 == 1 <==> e.body == [])
  {
    hide Exchange.Head;
    if i < |e.Head()| && f == e.Head()[i] { HeadIs(e, i); }
  }

  /** In every interleaving the stream is ended at most once. */
  lemma EndsOnce(e: Exchange, labels: seq<Label>, i: nat, j: nat)
    requires Run(e, labels).Some? && i < j < |Run(e, labels).value.wire|
    ensures var wire := Run(e, labels).value.wire; !(Final(wire[i]) && Final(wire[j]))
  {
    hide Run, Own, DataPart;
    var wire := Run(e, labels).value.wire;
    WireInNumbers(e, labels, i);
    WireInNumbers(e, labels, j);
    if wire[j].kind == 1 { HeadersFirst(e, j, wire[j]); }
    if wire[i].kind == 1 { HeadersFirst(e, i, wire[i]); }
    if wire[j].kind == 0 {
      DataAt(wire, j);
      DataPrefix(wire[..j], i + 1);
      assert wire[..j][..i + 1] == wire[..i + 1];
    }
  }

  lemma FirstFrame(e: Exchange, s: State)
    requires HeadFirst(e, s) && s.wire != [] && e.block != []
    ensures |e.Head()| > 0 && s.wire[0] == e.Head()[0]
  {
    hide Exchange.Head;
    HeadNotEmpty(e);
  }

  /** And it has been ended exactly when the head is begun and all of the body is written. */
  lemma EndsIff(e: Exchange, labels: seq<Label>)
    requires Run(e, labels).Some? && e.block != []
    ensures var s := Run(e, labels).value;
            (exists i :: 0 <= i < |s.wire| && Final(s.wire[i])) <==> s.wire != [] && s.position == |e.body|
  {
    hide Run, Own, DataPart, Exchange.Head, HeadFirst, DataFramesOk, Final;
    var s := Run(e, labels).value;
    RequestWritten(e, labels);
    if i :| 0 <= i < |s.wire| && Final(s.wire[i]) { FinalMeans(e, labels, i); }
    if s.wire != [] && s.position == |e.body| {
      if e.body == [] {
        FirstFrame(e, s);
        HeadIs(e, 0);
        assert Final(s.wire[0]) by { FinalHead(s.wire[0]); }
      } else {
        assert e.body[..s.position] == e.body;
        var i := LastData(s.wire);
        WireInNumbers(e, labels, i);
        assert Final(s.wire[i]) by { FinalHead(s.wire[i]); }
      }
    }
  }

  lemma FinalHead(f: Frame)
    requires f.kind in {0, 1} && f.flags % 2 == 1
    ensures Final(f)
  {
  }

  lemma FinalMeans(e: Exchange, labels: seq<Label>, i: nat)
    requires Run(e, labels).Some? && i < |Run(e, labels).value.wire| && Final(Run(e, labels).value.wire[i])
    ensures Run(e, labels).value.position == |e.body|
  {
    hide Run, Own, DataPart, HeadFirst, DataFramesOk;
    var s := Run(e, labels).value;
    RequestWritten(e, labels);
    WireInNumbers(e, labels, i);
    if s.wire[i].kind == 1 {
      HeadersFirst(e, i, s.wire[i]);
    } else {
      DataPrefix(s.wire, i + 1);
    }
  }
}
