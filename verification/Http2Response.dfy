/**
 * Assembly of one finite response: one header block, then DATA up to the end of the stream.
 *
 * `Accept` is the assembler's step; `Explained` says what any accepted run of frames must have been, and
 * `CompletedIff` turns that into one statement about whole runs.
 */
module Http2Response {
  import opened Bytes
  import opened Ascii
  import opened HuffmanTree
  import opened HpackTable
  import opened HpackSink
  import opened HpackBlock
  import opened Http2Frames
  import Runs = HpackRuns
  import Refinement = HpackRefinement
  import Huff = HpackHuffman
  import Headers = Http2Headers
  import Flow = Http2Flow

  /**
   * The installed limits, and the two shared policies this assembler calls: one on a finite head, one
   * on the collected response.
   */
  datatype Contract = Contract(tree: Tree, statics: seq<Field>, bounds: Headers.Bounds, encodedMaximum: nat,
                               bodyMaximum: nat, finiteHead: (nat, seq<Field>) -> bool,
                               collected: (nat, seq<Field>, seq<byte>) -> bool)
  {
    function Coder(): Codec { Codec(tree, statics, Headers.AsPolicy(bounds)) }

    function Opened(): Block { HpackBlock.Fresh(EMPTY, encodedMaximum) }
  }

  datatype Response = Response(block: Option<Block>, head: Option<(nat, seq<Field>)>, headerEnd: bool, ended: bool,
                               expected: Option<nat>, body: seq<byte>)

  function Unstarted(): Response { Response(None, None, false, false, None, []) }

  const NO_CONTENT: nat := 204
  const RESET_CONTENT: nat := 205

  // ----- declared length

  const CONTENT_LENGTH: seq<byte> := [99, 111, 110, 116, 101, 110, 116, 45, 108, 101, 110, 103, 116, 104]

  predicate AllDigits(value: seq<byte>) {
    value != [] && forall i :: 0 <= i < |value| ==> Digit(value[i])
  }

  function Lengths(headers: seq<Field>): seq<seq<byte>> {
    if headers == [] then []
    else (if headers[0].name == CONTENT_LENGTH then [headers[0].value] else []) + Lengths(headers[1..])
  }

  lemma {:induction false} NumberNat(value: seq<byte>)
    requires forall i :: 0 <= i < |value| ==> Digit(value[i])
    ensures Number(value) >= 0
  {
    if value != [] {
      NumberNat(value[..|value| - 1]);
    }
  }

  /** Absent, or exactly one decimal number below 2^64; anything else refuses the head. */
  function DeclaredLength(headers: seq<Field>): Option<Option<nat>> {
    var lengths := Lengths(headers);
    if lengths == [] then Some(None)
    else if |lengths| > 1 || !AllDigits(lengths[0]) then None
    else
      NumberNat(lengths[0]);
      if Number(lengths[0]) > U64_MAX then None else Some(Some(Number(lengths[0])))
  }

  lemma {:induction false} LengthsSplit(before: seq<Field>, after: seq<Field>)
    ensures Lengths(before + after) == Lengths(before) + Lengths(after)
    decreases |before|
  {
    if before == [] {
      assert before + after == after;
    } else {
      assert (before + after)[0] == before[0] && (before + after)[1..] == before[1..] + after;
      LengthsSplit(before[1..], after);
    }
  }

  lemma {:induction false} NoLengths(headers: seq<Field>)
    requires forall i :: 0 <= i < |headers| ==> headers[i].name != Octets("content-length")
    ensures Lengths(headers) == []
    decreases |headers|
  {
    LengthName();
    if headers != [] { NoLengths(headers[1..]); }
  }

  lemma LengthName()
    ensures CONTENT_LENGTH == Octets("content-length")
  {
  }

  /** No length is declared by no such field, a length by exactly one that prints a 64-bit number, two are refused. */
  lemma DeclaredIs(before: seq<Field>, f: Field, after: seq<Field>, n: nat)
    requires forall i :: 0 <= i < |before| ==> before[i].name != Octets("content-length")
    ensures DeclaredLength(before) == Some(None)
    ensures f == Field(Octets("content-length"), Decimal(n)) &&
            (forall i :: 0 <= i < |after| ==> after[i].name != Octets("content-length")) ==>
              DeclaredLength(before + [f] + after) == if n <= U64_MAX then Some(Some(n)) else None
    ensures f.name == Octets("content-length") && (exists i :: 0 <= i < |after| && after[i].name == f.name) ==>
              DeclaredLength(before + [f] + after).None?
  {
    LengthName();
    NoLengths(before);
    LengthsSplit(before + [f], after);
    LengthsSplit(before, [f]);
    assert [f][1..] == [];
    if f.name == CONTENT_LENGTH {
      assert Lengths([f]) == [f.value] + Lengths([f][1..]);
      assert Lengths(before + [f] + after) == [f.value] + Lengths(after);
      if i :| 0 <= i < |after| && after[i].name == f.name {
        assert after == after[..i] + ([after[i]] + after[i + 1..]);
        LengthsSplit(after[..i], [after[i]] + after[i + 1..]);
        assert ([after[i]] + after[i + 1..])[0] == after[i];
      }
    }
    if f == Field(CONTENT_LENGTH, Decimal(n)) && forall i :: 0 <= i < |after| ==> after[i].name != CONTENT_LENGTH {
      NoLengths(after);
      NumberOfDecimal(n);
    }
  }

  // ----- one frame at a time

  /** The head a completed block holds. */
  function HeadOf(c: Contract, b: Block): Option<(nat, seq<Field>)> {
    if b.phase != Instruction then None
    else Headers.HeadTold(c.bounds, b.log)
  }

  /** A declared length no response with this head could keep. */
  predicate Impossible(c: Contract, status: nat, length: nat, ended: bool) {
    length > c.bodyMaximum || status == NO_CONTENT || (status == RESET_CONTENT && length != 0) || (ended && length != 0)
  }

  predicate Installable(c: Contract, status: nat, headers: seq<Field>, ended: bool) {
    && c.finiteHead(status, headers) && DeclaredLength(headers).Some?
    && (DeclaredLength(headers).value.Some? ==> !Impossible(c, status, DeclaredLength(headers).value.value, ended))
  }

  /** A head with a declared length is installed only if a response could keep it, in numbers. */
  lemma InstallableIff(c: Contract, status: nat, headers: seq<Field>, ended: bool)
    ensures Installable(c, status, headers, ended) <==>
              && c.finiteHead(status, headers) && DeclaredLength(headers).Some?
              && match DeclaredLength(headers).value
                 case None => true
                 case Some(n) => n <= c.bodyMaximum && status != 204 && ((status == 205 || ended) ==> n == 0)
  {
  }

  function Install(c: Contract, r: Response, head: (nat, seq<Field>), ended: bool): Option<Response> {
    if !Installable(c, head.0, head.1, ended) then None
    else Some(r.(block := None, head := Some(head), ended := ended, expected := DeclaredLength(head.1).value))
  }

  function AcceptHead(c: Contract, r: Response, f: Frame): Option<Response> {
    if r.head.Some? || (f.kind == HEADERS && r.block.Some?) || (f.kind != HEADERS && r.block.None?) then None
    else
      var block := if f.kind == HEADERS then c.Opened() else r.block.value;
      var end := if f.kind == HEADERS then f.EndStream() else r.headerEnd;
      match c.Coder().Run(Ok(block), f.payload)
      case Refused(_) => None
      case Ok(next) =>
        if !f.EndHeaders() then Some(r.(block := Some(next), headerEnd := end))
        else match HeadOf(c, next) case None => None case Some(head) => Install(c, r.(headerEnd := end), head, end)
  }

  /** The receive windows are back at their initial size before every frame. */
  predicate Takable(f: Frame) {
    f.kind == DATA && f.stream == 1 && Flow.DataContent(f).Some? && |f.payload| <= Flow.INITIAL_WINDOW
  }

  predicate Bodiless(status: nat) { status == NO_CONTENT || status == RESET_CONTENT }

  function AcceptData(c: Contract, r: Response, f: Frame): Option<Response> {
    if r.head.None? || r.block.Some? || !Takable(f) then None
    else
      var content := Flow.DataContent(f).value;
      var body := r.body + content;
      if |body| > c.bodyMaximum || (r.expected.Some? && |body| > r.expected.value) then None
      else if Bodiless(r.head.value.0) && content != [] then None
      else if f.EndStream() && r.expected.Some? && |body| != r.expected.value then None
      else Some(r.(body := body, ended := f.EndStream()))
  }

  /** `None` is a poisoned assembler. */
  function Accept(c: Contract, r: Response, f: Frame): Option<Response> {
    if r.ended || f.stream != 1 then None
    else if f.kind == HEADERS || f.kind == CONTINUATION then AcceptHead(c, r, f)
    else if f.kind == DATA then AcceptData(c, r, f)
    else None
  }

  /** Credit goes back for the whole payload of a DATA frame, padding included, unless it was empty. */
  function Credit(f: Frame): nat {
    if f.kind == DATA then |f.payload| else 0
  }

  function AcceptAll(c: Contract, frames: seq<Frame>): Option<Response> {
    if frames == [] then Some(Unstarted())
    else match AcceptAll(c, frames[..|frames| - 1]) case None => None case Some(r) => Accept(c, r, frames[|frames| - 1])
  }

  function Finish(c: Contract, r: Response): Option<(nat, seq<Field>, seq<byte>)> {
    if !r.ended || r.block.Some? || r.head.None? || !c.collected(r.head.value.0, r.head.value.1, r.body) then None
    else Some((r.head.value.0, r.head.value.1, r.body))
  }

  // ----- what an accepted run was

  /** Frames of one header block that nothing interrupts. */
  predicate BlockFrames(frames: seq<Frame>) {
    && frames != []
    && (forall i :: 0 <= i < |frames| ==>
          frames[i].stream == 1 && frames[i].kind == if i == 0 then HEADERS else CONTINUATION)
    && (forall i :: 0 <= i < |frames| - 1 ==> !frames[i].EndHeaders())
  }

  function Pushed(c: Contract, frames: seq<Frame>): Outcome {
    Runs.Pushed(c.Coder(), Ok(c.Opened()), Payloads(frames))
  }

  predicate Open(c: Contract, frames: seq<Frame>, r: Response) {
    && BlockFrames(frames) && !frames[|frames| - 1].EndHeaders()
    && Pushed(c, frames).Ok?
    && r == Unstarted().(block := Some(Pushed(c, frames).block), headerEnd := frames[0].EndStream())
  }

  predicate Headed(c: Contract, frames: seq<Frame>, head: (nat, seq<Field>)) {
    && BlockFrames(frames) && frames[|frames| - 1].EndHeaders()
    && Pushed(c, frames).Ok? && HeadOf(c, Pushed(c, frames).block) == Some(head)
    && Installable(c, head.0, head.1, frames[0].EndStream())
  }

  function Contents(frames: seq<Frame>): seq<byte> {
    if frames == [] then []
    else
      var f := frames[|frames| - 1];
      Contents(frames[..|frames| - 1]) + (if Flow.DataContent(f).Some? then Flow.DataContent(f).value else [])
  }

  /** DATA frames behind a head, before any of them ended the stream or as the last one did. */
  predicate BodyFrames(c: Contract, frames: seq<Frame>, head: (nat, seq<Field>), expected: Option<nat>) {
    && (forall i :: 0 <= i < |frames| ==> Takable(frames[i]))
    && (forall i :: 0 <= i < |frames| - 1 ==> !frames[i].EndStream())
    && (frames != [] ==> |Contents(frames)| <= c.bodyMaximum)
    && (frames != [] && Bodiless(head.0) ==> Contents(frames) == [])
    && (frames != [] && expected.Some? ==>
          if frames[|frames| - 1].EndStream() then |Contents(frames)| == expected.value
          else |Contents(frames)| <= expected.value)
  }

  predicate Bodied(c: Contract, frames: seq<Frame>, n: nat, head: (nat, seq<Field>), r: Response) {
    && 0 < n <= |frames| && Headed(c, frames[..n], head)
    && (n < |frames| ==> !frames[0].EndStream())
    && BodyFrames(c, frames[n..], head, DeclaredLength(head.1).value)
    && r == Response(None, Some(head), frames[0].EndStream(),
                     if n == |frames| then frames[0].EndStream() else frames[|frames| - 1].EndStream(),
                     DeclaredLength(head.1).value, Contents(frames[n..]))
  }

  ghost predicate Explained(c: Contract, frames: seq<Frame>, r: Response) {
    || (frames == [] && r == Unstarted())
    || Open(c, frames, r)
    || (exists n: nat, head :: Bodied(c, frames, n, head, r))
  }

  // ----- one step forward

  lemma PushedMore(c: Contract, frames: seq<Frame>, f: Frame)
    ensures Pushed(c, frames + [f]) == c.Coder().Run(Pushed(c, frames), f.payload)
  {
    assert Payloads(frames + [f]) == Payloads(frames) + [f.payload];
    Runs.PushedIsRun(c.Coder(), Ok(c.Opened()), Payloads(frames));
    Runs.PushedIsRun(c.Coder(), Ok(c.Opened()), Payloads(frames) + [f.payload]);
    ConcatSnoc(Payloads(frames), f.payload);
    Refinement.RunAppend(c.Coder(), Ok(c.Opened()), Concat(Payloads(frames)), f.payload);
  }

  lemma PushedNothing(c: Contract)
    ensures Pushed(c, []) == Ok(c.Opened())
  {
  }

  /** The frames so far are an open block, or none at all. */
  predicate Opening(c: Contract, frames: seq<Frame>, r: Response) {
    if frames == [] then r == Unstarted() else Open(c, frames, r)
  }

  predicate OpenFrames(frames: seq<Frame>) {
    frames == [] || (BlockFrames(frames) && !frames[|frames| - 1].EndHeaders())
  }

  /** One more head frame, told by its own kind. */
  lemma BlockMore(frames: seq<Frame>, f: Frame)
    requires OpenFrames(frames)
    ensures BlockFrames(frames + [f]) <==> f.stream == 1 && f.kind == if frames == [] then HEADERS else CONTINUATION
    ensures (frames + [f])[0] == if frames == [] then f else frames[0]
  {
    var all := frames + [f];
    assert all[|frames|] == f;
    assert forall i :: 0 <= i < |frames| ==> all[i] == frames[i];
  }

  lemma HeadStep(c: Contract, frames: seq<Frame>, r: Response, f: Frame)
    requires Opening(c, frames, r)
    ensures Accept(c, r, f).Some? ==>
              BlockFrames(frames + [f]) && Pushed(c, frames + [f]).Ok?
    ensures BlockFrames(frames + [f]) && Pushed(c, frames + [f]).Ok? ==>
              var b, end := Pushed(c, frames + [f]).block, (frames + [f])[0].EndStream();
              Accept(c, r, f) ==
              if !f.EndHeaders() then Some(Unstarted().(block := Some(b), headerEnd := end))
              else match HeadOf(c, b)
                case None => None
                case Some(head) => Install(c, Unstarted().(headerEnd := end), head, end)
  {
    hide HeadOf, Installable, BlockFrames, Codec.Run;
    assert OpenFrames(frames);
    BlockMore(frames, f);
    PushedMore(c, frames, f);
    PushedNothing(c);
    if frames != [] { FirstIsHeaders(frames); }
  }

  lemma FirstIsHeaders(frames: seq<Frame>)
    requires BlockFrames(frames)
    ensures frames[0].kind == HEADERS
  {
  }

  lemma ContentsMore(frames: seq<Frame>, f: Frame)
    requires Takable(f)
    ensures Contents(frames + [f]) == Contents(frames) + Flow.DataContent(f).value
  {
    assert (frames + [f])[..|frames|] == frames;
  }

  /** One more DATA frame behind a head. */
  lemma BodyMore(c: Contract, frames: seq<Frame>, head: (nat, seq<Field>), expected: Option<nat>, f: Frame)
    requires BodyFrames(c, frames, head, expected)
    ensures BodyFrames(c, frames + [f], head, expected) <==>
              && Takable(f) && (frames != [] ==> !frames[|frames| - 1].EndStream())
              && var body := Contents(frames) + Flow.DataContent(f).value;
                 && |body| <= c.bodyMaximum
                 && (Bodiless(head.0) ==> Flow.DataContent(f).value == [])
                 && (expected.Some? ==> |body| <= expected.value && (f.EndStream() ==> |body| == expected.value))
  {
    hide Flow.DataContent, Frame.EndStream, Contents;
    var all := frames + [f];
    assert all[|frames|] == f;
    assert forall i :: 0 <= i < |frames| ==> all[i] == frames[i];
    if Takable(f) {
      ContentsMore(frames, f);
      if frames == [] { ContentsNone(frames); }
    } else {
      assert !Takable(all[|frames|]);
    }
    if frames != [] { assert all[|frames| - 1] == frames[|frames| - 1]; }
  }

  lemma ContentsNone(frames: seq<Frame>)
    requires frames == []
    ensures Contents(frames) == []
  {
  }

  lemma DataStep(c: Contract, frames: seq<Frame>, n: nat, head: (nat, seq<Field>), r: Response, f: Frame)
    requires Bodied(c, frames, n, head, r)
    ensures Accept(c, r, f).Some? <==> !r.ended && BodyFrames(c, frames[n..] + [f], head, DeclaredLength(head.1).value)
    ensures Accept(c, r, f).Some? ==> Bodied(c, frames + [f], n, head, Accept(c, r, f).value)
  {
    hide Flow.DataContent, Frame.EndStream, Contents, Headed, BodyFrames, DeclaredLength;
    var all, data := frames + [f], frames[n..];
    HeadedDeclares(c, frames[..n], head);
    BodyMore(c, data, head, DeclaredLength(head.1).value, f);
    assert all[..n] == frames[..n] && all[n..] == data + [f] && all[0] == frames[0] && all[|all| - 1] == f;
    if n < |frames| { assert data[|data| - 1] == frames[|frames| - 1]; }
    if Takable(f) { ContentsMore(data, f); }
  }

  lemma HeadedDeclares(c: Contract, frames: seq<Frame>, head: (nat, seq<Field>))
    requires Headed(c, frames, head)
    ensures DeclaredLength(head.1).Some?
  {
  }

  /** Everything an assembler accepts is explained. */
  lemma {:induction false} AcceptedExplained(c: Contract, frames: seq<Frame>)
    requires AcceptAll(c, frames).Some?
    ensures Explained(c, frames, AcceptAll(c, frames).value)
    decreases |frames|
  {
    hide Accept, Bodied, Open, Codec.Run;
    if frames != [] {
      var before, f := frames[..|frames| - 1], frames[|frames| - 1];
      assert frames == before + [f];
      AcceptedExplained(c, before);
      var r := AcceptAll(c, before).value;
      if Opening(c, before, r) {
        HeadExplained(c, before, r, f);
      } else {
        var n: nat, head :| Bodied(c, before, n, head, r);
        DataStep(c, before, n, head, r, f);
      }
    }
  }

  lemma HeadExplained(c: Contract, frames: seq<Frame>, r: Response, f: Frame)
    requires Opening(c, frames, r) && Accept(c, r, f).Some?
    ensures Explained(c, frames + [f], Accept(c, r, f).value)
  {
    hide Accept, BlockFrames, HeadOf, Codec.Run, DeclaredLength;
    HeadStep(c, frames, r, f);
    var all := frames + [f];
    assert all[|all| - 1] == f;
    if f.EndHeaders() {
      var head := HeadOf(c, Pushed(c, all).block).value;
      assert all[..|all|] == all;
      ContentsNone(all[|all|..]);
      NoBody(c, head, all[|all|..]);
      assert Bodied(c, all, |all|, head, Accept(c, r, f).value);
    } else {
      assert Open(c, all, Accept(c, r, f).value);
    }
  }

  lemma NoBody(c: Contract, head: (nat, seq<Field>), frames: seq<Frame>)
    requires frames == [] && DeclaredLength(head.1).Some?
    ensures BodyFrames(c, frames, head, DeclaredLength(head.1).value)
  {
  }

  /** Everything explained is accepted, as exactly that. */
  lemma {:induction false} ExplainedAccepted(c: Contract, frames: seq<Frame>, r: Response)
    requires Explained(c, frames, r)
    ensures AcceptAll(c, frames) == Some(r)
    decreases |frames|
  {
    hide Accept, BlockFrames, Bodied, Open, Codec.Run;
    Parts(c, frames, r);
    if frames != [] {
      var before, f := frames[..|frames| - 1], frames[|frames| - 1];
      assert frames == before + [f];
      if Open(c, frames, r) {
        var r0 := Reopened(c, before, f, frames);
        ExplainedAccepted(c, before, r0);
        OpenStep(c, before, r0, f, r);
      } else {
        var n: nat, head :| Bodied(c, frames, n, head, r);
        if n < |frames| {
          var r0 := Shortened(c, before, f, n, head, r);
          ExplainedAccepted(c, before, r0);
          DataStep(c, before, n, head, r0, f);
          SameBodied(c, frames, n, head, r, Accept(c, r0, f).value);
        } else {
          HeadOnly(c, frames, n, head, r);
          var r0 := Reopened(c, before, f, frames);
          ExplainedAccepted(c, before, r0);
          HeadedStep(c, before, r0, f, head, r);
        }
      }
    }
  }

  lemma Parts(c: Contract, frames: seq<Frame>, r: Response)
    requires Explained(c, frames, r)
    ensures frames == [] ==> r == Unstarted()
    ensures Open(c, frames, r) ==> BlockFrames(frames) && Pushed(c, frames).Ok?
    ensures forall n: nat, head :: Bodied(c, frames, n, head, r) ==> 0 < n <= |frames|
  {
  }

  lemma HeadOnly(c: Contract, frames: seq<Frame>, n: nat, head: (nat, seq<Field>), r: Response)
    requires Bodied(c, frames, n, head, r) && n == |frames|
    ensures Headed(c, frames, head) && BlockFrames(frames) && Pushed(c, frames).Ok?
    ensures Installable(c, head.0, head.1, frames[0].EndStream())
    ensures Some(r) == Install(c, Unstarted().(headerEnd := frames[0].EndStream()), head, frames[0].EndStream())
  {
    assert frames[..n] == frames;
    ContentsNone(frames[n..]);
  }

  lemma SameBodied(c: Contract, frames: seq<Frame>, n: nat, head: (nat, seq<Field>), r: Response, other: Response)
    requires Bodied(c, frames, n, head, r) && Bodied(c, frames, n, head, other)
    ensures r == other
  {
  }

  /** The state before the last frame of a block. */
  lemma Reopened(c: Contract, before: seq<Frame>, f: Frame, frames: seq<Frame>) returns (r: Response)
    requires frames == before + [f] && BlockFrames(frames) && Pushed(c, frames).Ok?
    ensures Opening(c, before, r) && Explained(c, before, r)
  {
    hide Codec.Run;
    if before == [] {
      r := Unstarted();
    } else {
      PushedMore(c, before, f);
      if Pushed(c, before).Refused? { Refinement.RunRefused(c.Coder(), Pushed(c, before).limit, f.payload); }
      assert forall i :: 0 <= i < |before| ==> before[i] == frames[i];
      r := Unstarted().(block := Some(Pushed(c, before).block), headerEnd := before[0].EndStream());
      assert Open(c, before, r);
    }
  }

  lemma OpenStep(c: Contract, before: seq<Frame>, r0: Response, f: Frame, r: Response)
    requires Opening(c, before, r0) && Open(c, before + [f], r)
    ensures Accept(c, r0, f) == Some(r)
  {
    hide Accept, Codec.Run, HeadOf, Installable;
    HeadStep(c, before, r0, f);
    assert (before + [f])[|before|] == f;
  }

  lemma HeadedStep(c: Contract, before: seq<Frame>, r0: Response, f: Frame, head: (nat, seq<Field>), r: Response)
    requires Opening(c, before, r0) && Headed(c, before + [f], head)
    requires Some(r) ==
               Install(c, Unstarted().(headerEnd := (before + [f])[0].EndStream()), head, (before + [f])[0].EndStream())
    ensures Accept(c, r0, f) == Some(r)
  {
    hide Accept, Codec.Run, HeadOf, Install, Installable;
    HeadStep(c, before, r0, f);
    assert (before + [f])[|before|] == f;
  }

  /** The state before the last DATA frame. */
  lemma Shortened(c: Contract, before: seq<Frame>, f: Frame, n: nat, head: (nat, seq<Field>), r: Response)
    returns (r0: Response)
    requires Bodied(c, before + [f], n, head, r) && n <= |before|
    ensures Bodied(c, before, n, head, r0) && Explained(c, before, r0) && !r0.ended
    ensures BodyFrames(c, before[n..] + [f], head, DeclaredLength(head.1).value)
  {
    hide Headed, DeclaredLength, Frame.EndStream;
    var all := before + [f];
    HeadedDeclares(c, all[..n], head);
    assert all[..n] == before[..n] && all[n..] == before[n..] + [f] && all[0] == before[0];
    BodyPrefix(c, before[n..], f, head, DeclaredLength(head.1).value);
    var ended := if n == |before| then before[0].EndStream() else before[|before| - 1].EndStream();
    if n < |before| {
      assert all[n..][|before| - 1 - n] == before[|before| - 1];
    }
    r0 := Response(None, Some(head), before[0].EndStream(), ended, DeclaredLength(head.1).value, Contents(before[n..]));
    assert Bodied(c, before, n, head, r0);
  }

  lemma BodyPrefix(c: Contract, frames: seq<Frame>, f: Frame, head: (nat, seq<Field>), expected: Option<nat>)
    requires BodyFrames(c, frames + [f], head, expected)
    ensures BodyFrames(c, frames, head, expected)
  {
    hide Flow.DataContent, Frame.EndStream;
    var all := frames + [f];
    assert all[|frames|] == f;
    assert forall i :: 0 <= i < |frames| ==> all[i] == frames[i];
    ContentsMore(frames, f);
  }

  // ----- whole responses

  /**
   * A complete response: one uninterrupted header block that decodes to a lawful head, then DATA whose
   * contents are the body, the end of the stream on exactly the last frame that can carry it.
   */
  predicate Complete(c: Contract, frames: seq<Frame>, n: nat, head: (nat, seq<Field>), body: seq<byte>) {
    && 0 < n <= |frames| && BlockFrames(frames[..n]) && frames[n - 1].EndHeaders()
    && Decodes(c, Concat(Payloads(frames[..n])), head)
    && Installable(c, head.0, head.1, frames[0].EndStream())
    && BodyFrames(c, frames[n..], head, DeclaredLength(head.1).value) && body == Contents(frames[n..])
    && (frames[0].EndStream() <==> n == |frames|)
    && (n < |frames| ==> frames[|frames| - 1].EndStream())
    && c.collected(head.0, head.1, body)
  }

  /** The whole-block decoder delivers exactly this head, within the encoded bound. */
  predicate Decodes(c: Contract, block: seq<byte>, head: (nat, seq<Field>)) {
    && |block| <= c.encodedMaximum && Headers.Lawful(c.bounds, head.0, head.1)
    && var decoded := c.Coder().Decode(block, EMPTY, [], false);
       decoded.Some? && decoded.value.0 == AllEvents(Headers.AllOf(head.0, head.1))
  }

  ghost predicate Installed(c: Contract, book: Codebook) {
    Huff.Huffman(c.tree, book) && |c.statics| == 61 && c.encodedMaximum <= U64_MAX
  }

  lemma PushedDecodes(c: Contract, book: Codebook, frames: seq<Frame>, head: (nat, seq<Field>))
    requires Installed(c, book)
    ensures Pushed(c, frames).Ok? && HeadOf(c, Pushed(c, frames).block) == Some(head) <==>
              Decodes(c, Concat(Payloads(frames)), head)
  {
    hide Codec.Run, Codec.Decode, Headers.HeadTold, Headers.Lawful, AllEvents;
    Runs.AnyFragments(c.Coder(), book, EMPTY, c.encodedMaximum, Payloads(frames));
    var o := Pushed(c, frames);
    if o.Ok? { Headers.FinishedIff(c.bounds, o.block.log, head.0, head.1); }
  }

  /**
   * Over every run of frames: the assembler takes them all and finishes with a response exactly when
   * they are a complete response with that head and that body.
   */
  lemma CompletedIff(c: Contract, book: Codebook, frames: seq<Frame>, head: (nat, seq<Field>), body: seq<byte>)
    requires Installed(c, book)
    ensures AcceptAll(c, frames).Some? && Finish(c, AcceptAll(c, frames).value) == Some((head.0, head.1, body)) <==>
              exists n: nat :: Complete(c, frames, n, head, body)
  {
    hide AcceptAll, Complete, Explained;
    if AcceptAll(c, frames).Some? && Finish(c, AcceptAll(c, frames).value) == Some((head.0, head.1, body)) {
      AcceptedExplained(c, frames);
      var n := FinishedComplete(c, book, frames, AcceptAll(c, frames).value, head, body);
    }
    if n: nat :| Complete(c, frames, n, head, body) {
      CompleteFinished(c, book, frames, n, head, body);
    }
  }

  lemma FinishedComplete(c: Contract, book: Codebook, frames: seq<Frame>, r: Response, head: (nat, seq<Field>),
                         body: seq<byte>)
    returns (n: nat)
    requires Installed(c, book) && Explained(c, frames, r) && Finish(c, r) == Some((head.0, head.1, body))
    ensures Complete(c, frames, n, head, body)
  {
    hide Decodes, Installable, HeadOf, BlockFrames, BodyFrames, DeclaredLength, Pushed, Contents;
    var m: nat, h :| Bodied(c, frames, m, h, r);
    n := m;
    PushedDecodes(c, book, frames[..n], h);
    assert frames[..n][n - 1] == frames[n - 1];
  }

  lemma CompleteFinished(c: Contract, book: Codebook, frames: seq<Frame>, n: nat, head: (nat, seq<Field>),
                         body: seq<byte>)
    requires Installed(c, book) && Complete(c, frames, n, head, body)
    ensures AcceptAll(c, frames).Some? && Finish(c, AcceptAll(c, frames).value) == Some((head.0, head.1, body))
  {
    hide Decodes, HeadOf, BlockFrames, BodyFrames, DeclaredLength, Pushed, Contents, AcceptAll;
    PushedDecodes(c, book, frames[..n], head);
    assert frames[..n][n - 1] == frames[n - 1] && frames[..n][0] == frames[0];
    var r := Response(None, Some(head), frames[0].EndStream(), true, DeclaredLength(head.1).value,
        Contents(frames[n..]));
    assert Bodied(c, frames, n, head, r);
    ExplainedAccepted(c, frames, r);
  }

  /** What a complete response keeps of its body, in numbers. */
  lemma CompleteBody(c: Contract, frames: seq<Frame>, n: nat, head: (nat, seq<Field>), body: seq<byte>)
    requires Complete(c, frames, n, head, body)
    ensures n < |frames| ==> |body| <= c.bodyMaximum
    ensures head.0 == 204 || head.0 == 205 ==> body == []
    ensures DeclaredLength(head.1).Some? && DeclaredLength(head.1).value != None ==>
              DeclaredLength(head.1) == Some(Some(|body|))
  {
    hide Decodes, DeclaredLength, BlockFrames;
    if n == |frames| {
      ContentsNone(frames[n..]);
    } else {
      assert frames[n..][|frames| - n - 1] == frames[|frames| - 1];
    }
  }

  /** A refused frame is final: nothing behind it is taken. */
  lemma {:induction false} RefusalIsFinal(c: Contract, frames: seq<Frame>, more: seq<Frame>)
    requires AcceptAll(c, frames).None?
    ensures AcceptAll(c, frames + more).None?
    decreases |more|
  {
    if more == [] {
      assert frames + more == frames;
    } else {
      var all := frames + more;
      assert all[..|all| - 1] == frames + more[..|more| - 1];
      RefusalIsFinal(c, frames, more[..|more| - 1]);
    }
  }
}
