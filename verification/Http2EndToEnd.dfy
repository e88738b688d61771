/** From a list of fields, through frames on a wire, to the same fields in a sink. */
module Http2EndToEnd {
  import opened Bytes
  import opened HpackTable
  import opened HpackSink
  import opened HpackBlock
  import opened HuffmanTree
  import opened Http2Request
  import opened Http2Frames
  import R = Http2FrameReader
  import Huff = HpackHuffman
  import Runs = HpackRuns

  predicate Writable(frames: seq<Frame>) {
    forall i :: 0 <= i < |frames| ==> |frames[i].payload| < 0x100_0000 && frames[i].stream < 0x8000_0000
  }

  function WireAll(frames: seq<Frame>): seq<byte>
    requires Writable(frames)
  {
    if frames == [] then [] else Wire(frames[0]) + WireAll(frames[1..])
  }

  /** Any frames written one behind the other are cut apart again. */
  lemma {:induction false} CutAllWire(frames: seq<Frame>)
    requires Writable(frames)
    ensures R.CutAll(WireAll(frames)) == (frames, [])
    decreases |frames|
  {
    hide Wire, HeadOf;
    if frames != [] {
      CutWire(frames[0], WireAll(frames[1..]));
      CutAllWire(frames[1..]);
      assert frames == [frames[0]] + frames[1..];
    }
  }

  /** A lawful run survives the wire whole; its end is proved exactly when it is complete. */
  lemma LawfulSurvives(frames: seq<Frame>, maximum: nat, trailers: bool)
    requires Writable(frames) && Lawful(frames, maximum, trailers)
    ensures R.ReadAll(Http2Frames.Fresh(maximum, trailers), WireAll(frames)) == R.Transcript(frames, CleanEnd(frames))
  {
    hide Lawful;
    CutAllWire(frames);
    R.WholeTransport(maximum, trailers, WireAll(frames));
    var n := |R.ReadAll(Http2Frames.Fresh(maximum, trailers), WireAll(frames)).frames|;
    if n < |frames| {
      LawfulPrefix(frames, n + 1, maximum, trailers);
    } else {
      assert frames[..n] == frames;
    }
  }

  // ----- the head frames are lawful behind a SETTINGS frame

  predicate Opening(settings: Frame) {
    settings.kind == SETTINGS && !settings.Ack() && settings.Local()
  }

  function Sent(settings: Frame, block: seq<byte>, bodyEmpty: bool): seq<Frame> {
    [settings] + Frames(block, bodyEmpty)
  }

  lemma HeadFrame(block: seq<byte>, bodyEmpty: bool, i: nat)
    requires i < Fragments(|block|)
    ensures var f := FrameAt(block, bodyEmpty, i);
            && f.Local() && 0 < |f.payload| <= MAXIMUM_FRAME_BYTES
            && (f.kind == HEADERS ==> f.Strippable() && f.Content() == f.payload)
            && (f.Opens() <==> i + 1 < Fragments(|block|))
            && (f.Ends() <==> i == 0 && bodyEmpty)
            && |f.payload| == Minimum((i + 1) * MAXIMUM_FRAME_BYTES, |block|) - i * MAXIMUM_FRAME_BYTES
  {
    FragmentBounds(|block|, i);
  }

  lemma {:induction false} SentBytes(settings: Frame, block: seq<byte>, bodyEmpty: bool, n: nat)
    requires Opening(settings) && n <= Fragments(|block|)
    ensures SectionBytes(Sent(settings, block, bodyEmpty)[..n + 1]) == Minimum(n * MAXIMUM_FRAME_BYTES, |block|)
    decreases n
  {
    hide Frame.Local;
    var all := Sent(settings, block, bodyEmpty);
    assert all[..n + 1][..n] == all[..n];
    if n == 0 {
      assert all[..1] == [settings] && [settings][..0] == [];
    } else {
      SentBytes(settings, block, bodyEmpty, n - 1);
      HeadFrame(block, bodyEmpty, n - 1);
      FragmentBounds(|block|, n - 1);
      assert all[..n + 1][n] == FrameAt(block, bodyEmpty, n - 1);
    }
  }

  lemma SentLawful(settings: Frame, block: seq<byte>, bodyEmpty: bool, maximum: nat)
    requires Opening(settings) && |block| <= maximum
    ensures Lawful(Sent(settings, block, bodyEmpty), maximum, false)
  {
    hide Frame.Local, SectionBytes, Frame.Opens, Frame.Ends;
    var all := Sent(settings, block, bodyEmpty);
    forall i | 0 <= i < |all|
      ensures all[i].Local()
      ensures i > 0 ==> all[i].kind == (if i == 1 then HEADERS else CONTINUATION)
      ensures i > 0 ==> (all[i].Opens() <==> i + 1 < |all|) && (all[i].Ends() <==> i == 1 && bodyEmpty)
    {
      if i > 0 { HeadFrame(block, bodyEmpty, i - 1); }
    }
    SettingsIsNeither(settings);
    assert Closed(all) by {
      assert forall j :: 0 <= j < |all| && all[j].kind == HEADERS ==> j == 1 && all[..1] == [settings];
    }
    forall n | 0 <= n <= |all| ensures SectionBytes(all[..n]) <= maximum {
      if n > 0 { SentBytes(settings, block, bodyEmpty, n - 1); } else { NoBytes(all[..n]); }
    }
  }

  lemma NoBytes(frames: seq<Frame>)
    requires frames == []
    ensures SectionBytes(frames) == 0
  {
  }

  lemma SettingsIsNeither(settings: Frame)
    requires settings.kind == SETTINGS
    ensures !settings.Opens() && !settings.Ends()
  {
  }

  /** The header fragments among what a reader was handed. */
  function HeaderFragments(frames: seq<Frame>): seq<seq<byte>>
    requires forall i :: 0 <= i < |frames| && frames[i].kind == HEADERS ==> frames[i].Strippable()
  {
    if frames == [] then []
    else (if frames[0].kind == HEADERS || frames[0].kind == CONTINUATION then [frames[0].Content()] else [])
         + HeaderFragments(frames[1..])
  }

  lemma {:induction false} FragmentsOf(frames: seq<Frame>)
    requires forall i :: 0 <= i < |frames| ==> frames[i].kind == HEADERS || frames[i].kind == CONTINUATION
    requires forall i :: 0 <= i < |frames| && frames[i].kind == HEADERS ==>
               frames[i].Strippable() && frames[i].Content() == frames[i].payload
    ensures HeaderFragments(frames) == Payloads(frames)
    decreases |frames|
  {
    if frames != [] {
      FragmentsOf(frames[1..]);
      assert Payloads(frames) == [frames[0].payload] + Payloads(frames[1..]);
    }
  }

  lemma SentFragments(settings: Frame, block: seq<byte>, bodyEmpty: bool)
    requires Opening(settings)
    ensures var all := Sent(settings, block, bodyEmpty);
            forall i :: 0 <= i < |all| && all[i].kind == HEADERS ==> all[i].Strippable()
    ensures Concat(HeaderFragments(Sent(settings, block, bodyEmpty))) == block
    ensures Writable(Sent(settings, block, bodyEmpty))
  {
    hide Frame.Strippable, Frame.Content;
    var frames, all := Frames(block, bodyEmpty), Sent(settings, block, bodyEmpty);
    forall i | 0 <= i < |frames|
      ensures frames[i].kind == HEADERS ==> frames[i].Strippable() && frames[i].Content() == frames[i].payload
      ensures |frames[i].payload| <= MAXIMUM_FRAME_BYTES && frames[i].stream == 1
    {
      HeadFrame(block, bodyEmpty, i);
    }
    forall i | 0 <= i < |all| ensures all[i].kind == HEADERS ==> all[i].Strippable() {
      if i > 0 { assert all[i] == frames[i - 1]; }
    }
    assert Writable(all) by { assert forall i :: 0 < i < |all| ==> all[i] == frames[i - 1]; }
    assert all[1..] == frames;
    FragmentsOf(frames);
    FragmentsJoin(block, bodyEmpty);
    assert HeaderFragments(all) == [] + HeaderFragments(all[1..]);
    assert [] + HeaderFragments(frames) == HeaderFragments(frames);
  }

  /**
   * Any fields whose block fits the bound, encoded, fragmented, written behind any opening SETTINGS frame,
   * read back and pushed fragment by fragment: exactly those fields arrive, in order, and the dynamic table
   * is still empty, if and only if every name is non-empty and the sink takes them.  The end of the
   * transport is proved exactly when there was a block and it ended the stream.
   */
  lemma EndToEnd(c: Codec, book: Codebook, fields: seq<Field>, bodyEmpty: bool, settings: Frame, maximum: nat)
    requires Huff.Huffman(c.tree, book) && |c.statics| == 61 && maximum <= U64_MAX
    requires |BlockCode(fields)| <= maximum && Opening(settings)
    ensures var frames := Sent(settings, BlockCode(fields), bodyEmpty);
            && Writable(frames)
            && R.ReadAll(Http2Frames.Fresh(maximum, false), WireAll(frames)) ==
                R.Transcript(frames, bodyEmpty && fields != [])
            && (forall i :: 0 <= i < |frames| && frames[i].kind == HEADERS ==> frames[i].Strippable())
            && Finished(Runs.Pushed(c, Ok(HpackBlock.Fresh(EMPTY, maximum)), HeaderFragments(frames))) ==
               (if AllNamed(fields) && Takes(c.policy, [], AllEvents(fields)) then Some((AllEvents(fields), EMPTY))
                   else None)
  {
    hide Lawful, Frame.Local, Codec.Decode, Frame.Strippable;
    var block := BlockCode(fields);
    var frames := Sent(settings, block, bodyEmpty);
    SentFragments(settings, block, bodyEmpty);
    SentLawful(settings, block, bodyEmpty, maximum);
    LawfulSurvives(frames, maximum, false);
    SentEnds(settings, fields, bodyEmpty);
    Runs.AnyFragments(c, book, EMPTY, maximum, HeaderFragments(frames));
    FieldsWithin(fields, maximum);
    DecodeEncoded(c, fields, EMPTY, [], false);
    assert [] + AllEvents(fields) == AllEvents(fields);
  }

  lemma SentEnds(settings: Frame, fields: seq<Field>, bodyEmpty: bool)
    requires Opening(settings)
    ensures CleanEnd(Sent(settings, BlockCode(fields), bodyEmpty)) <==> bodyEmpty && fields != []
  {
    hide Frame.Local, Frame.Opens, Frame.Ends;
    var block := BlockCode(fields);
    var all := Sent(settings, block, bodyEmpty);
    SettingsIsNeither(settings);
    forall i | 0 < i < |all|
      ensures all[i].kind == (if i == 1 then HEADERS else CONTINUATION)
      ensures (all[i].Opens() <==> i + 1 < |all|) && (all[i].Ends() <==> i == 1 && bodyEmpty)
    {
      HeadFrame(block, bodyEmpty, i - 1);
    }
    if fields != [] {
      FieldCodeLength(fields[0]);
      assert all[1].kind == HEADERS;
      if bodyEmpty { assert all[1].Ends(); }
    } else {
      assert all == [settings];
    }
  }
}
