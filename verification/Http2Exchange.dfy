/**
 * From the octets of a whole transport to a response: the frame gate and the assembler in one loop.
 *
 * `Answer` reads frame by frame and hands each to the assembler, as the driver's reader does.  What it
 * answers is said without a loop by `Answers`: the octets are the wire of lawful frames, and the response
 * frames among them are a complete response.
 */
module Http2Exchange {
  import opened Bytes
  import opened HuffmanTree
  import opened Http2Frames
  import R = Http2FrameReader
  import Driver = Http2Driver
  import Assembly = Http2Response
  import Object = Http2FiniteResponse
  import Trie = HuffmanTrie
  import Table = HpackTable

  type Result = (nat, seq<Field>, seq<byte>)

  /** What the reader hands on. */
  function Stripped(f: Frame): Frame {
    if f.kind == HEADERS && f.Strippable() then R.Handed(f) else f
  }

  /**
   * One frame of an exchange, as handed on; behind the end of the response nothing of it may follow, all else
   * is drained.
   */
  function Taken(c: Assembly.Contract, r: Assembly.Response, f: Frame): Option<Assembly.Response> {
    if Driver.ResponseKind(f.kind) then Assembly.Accept(c, r, f)
    else if !r.ended && Driver.Intolerable(f) then None
    else Some(r)
  }

  function Answer(c: Assembly.Contract, g: Gate, r: Assembly.Response, input: seq<byte>): Option<Result>
    decreases |input|
  {
    match Read(g, input)
    case Refused => None
    case End => Assembly.Finish(c, r)
    case Got(f, next, rest) =>
      match Taken(c, r, Stripped(f)) case None => None case Some(more) => Answer(c, next, more, rest)
  }

  // ----- the frames of a transport, all at once

  /** The response frames, as they are handed on. */
  function Responses(frames: seq<Frame>): seq<Frame> {
    if frames == [] then []
    else (if Driver.ResponseKind(frames[0].kind) then [Stripped(frames[0])] else []) + Responses(frames[1..])
  }

  /** Nothing intolerable stands before a response frame. */
  predicate Courteous(frames: seq<Frame>) {
    frames == [] || (Courteous(frames[1..]) && (Driver.Intolerable(frames[0]) ==> Responses(frames[1..]) == []))
  }

  /** The octets behind these frames are the wire of a complete response. */
  ghost predicate Answers(c: Assembly.Contract, before: seq<Frame>, maximum: nat, input: seq<byte>, result: Result) {
    var (frames, left) := R.CutAll(input);
    && left == [] && Lawful(before + frames, maximum, false) && CleanEnd(before + frames) && Courteous(frames)
    && exists n: nat :: Assembly.Complete(c, Responses(frames), n, (result.0, result.1), result.2)
  }

  function FrameAnswer(c: Assembly.Contract, r: Assembly.Response, frames: seq<Frame>, proof: bool): Option<Result>
    decreases |frames|
  {
    if frames == [] then (if proof then Assembly.Finish(c, r) else None)
    else match Taken(c, r, Stripped(frames[0]))
      case None => None
      case Some(more) => FrameAnswer(c, more, frames[1..], proof)
  }

  lemma {:induction false} AnswerByFrames(c: Assembly.Contract, g: Gate, r: Assembly.Response, input: seq<byte>)
    ensures Answer(c, g, r, input) == FrameAnswer(c, r, R.ReadAll(g, input).frames, R.ReadAll(g, input).proof)
    decreases |input|
  {
    hide Taken, Assembly.Finish;
    match Read(g, input)
    case Refused =>
    case End =>
    case Got(f, next, rest) =>
      var t := R.ReadAll(next, rest);
      assert ([f] + t.frames)[1..] == t.frames;
      match Taken(c, r, Stripped(f))
      case None =>
      case Some(more) => AnswerByFrames(c, next, more, rest);
  }

  /** An ended response takes no further frame. */
  lemma EndedTakesNothing(c: Assembly.Contract, done: seq<Frame>, r: Assembly.Response, more: seq<Frame>)
    requires Assembly.AcceptAll(c, done) == Some(r) && r.ended && more != []
    ensures Assembly.AcceptAll(c, done + more).None?
  {
    hide Assembly.AcceptHead, Assembly.AcceptData;
    AcceptOne(c, done, r, more[0]);
    Assembly.RefusalIsFinal(c, done + [more[0]], more[1..]);
    assert done + [more[0]] + more[1..] == done + more;
  }

  lemma AcceptOne(c: Assembly.Contract, done: seq<Frame>, r: Assembly.Response, f: Frame)
    requires Assembly.AcceptAll(c, done) == Some(r)
    ensures Assembly.AcceptAll(c, done + [f]) == Assembly.Accept(c, r, f)
  {
    assert (done + [f])[..|done|] == done;
  }

  /** What a finished run of response frames gives. */
  function Finished(c: Assembly.Contract, frames: seq<Frame>): Option<Result> {
    match Assembly.AcceptAll(c, frames) case None => None case Some(r) => Assembly.Finish(c, r)
  }

  /** The loop over frames answers exactly what its response frames, taken by themselves, finish with. */
  lemma {:induction false} FramesIff(c: Assembly.Contract, done: seq<Frame>, r: Assembly.Response, frames: seq<Frame>,
                                     x: Result)
    requires Assembly.AcceptAll(c, done) == Some(r)
    ensures FrameAnswer(c, r, frames, true) == Some(x) <==>
              Courteous(frames) && Finished(c, done + Responses(frames)) == Some(x)
    decreases |frames|
  {
    hide Assembly.AcceptAll, Assembly.Accept, Driver.Intolerable;
    if frames == [] {
      assert done + [] == done;
    } else {
      var f, rest := frames[0], frames[1..];
      if Driver.ResponseKind(f.kind) {
        var h := Stripped(f);
        Distinguished(f);
        AcceptOne(c, done, r, h);
        assert done + Responses(frames) == done + [h] + Responses(rest);
        match Assembly.Accept(c, r, h)
        case None => Assembly.RefusalIsFinal(c, done + [h], Responses(rest));
        case Some(more) => FramesIff(c, done + [h], more, rest, x);
      } else {
        assert Responses(frames) == Responses(rest);
        FramesIff(c, done, r, rest, x);
        if Driver.Intolerable(f) && r.ended && Responses(rest) != [] { EndedTakesNothing(c, done, r, Responses(rest)); }
        if Responses(rest) == [] { assert done + Responses(rest) == done; }
      }
    }
  }

  lemma Distinguished(f: Frame)
    requires Driver.ResponseKind(f.kind)
    ensures !Driver.Intolerable(f)
  {
  }

  /**
   * Over every transport, behind any lawful frames already read: the loop answers with a response if and
   * only if the octets are the wire of frames that are lawful there and end cleanly, nothing intolerable
   * stands before the end of the response, and the response frames are complete with that response.
   */
  lemma AnswerIff(c: Assembly.Contract, book: Codebook, before: seq<Frame>, maximum: nat, g: Gate, input: seq<byte>,
                  x: Result)
    requires Assembly.Installed(c, book) && AdmitAll(Fresh(maximum, false), before) == Some(g)
    ensures Answer(c, g, Assembly.Unstarted(), input) == Some(x) <==> Answers(c, before, maximum, input, x)
  {
    hide Lawful, CleanEnd, FrameAnswer, Assembly.Complete, Assembly.AcceptAll, Assembly.Finish, R.CutAll, R.ReadAll,
        Courteous;
    var t := R.ReadAll(g, input);
    var (frames, left) := R.CutAll(input);
    AnswerByFrames(c, g, Assembly.Unstarted(), input);
    R.ReadsFrom(g, before, maximum, false, input);
    NothingAccepted(c);
    FramesIff(c, [], Assembly.Unstarted(), t.frames, x);
    assert [] + Responses(t.frames) == Responses(t.frames);
    Assembly.CompletedIff(c, book, Responses(t.frames), (x.0, x.1), x.2);
    NoProofNoAnswer(c, Assembly.Unstarted(), t.frames);
    if left == [] && Lawful(before + frames, maximum, false) {
      AllRead(before, maximum, input, t);
    }
    if |t.frames| == |frames| { assert frames[..|frames|] == frames; }
  }

  lemma NothingAccepted(c: Assembly.Contract)
    ensures Assembly.AcceptAll(c, []) == Some(Assembly.Unstarted())
  {
  }

  lemma {:induction false} NoProofNoAnswer(c: Assembly.Contract, r: Assembly.Response, frames: seq<Frame>)
    ensures FrameAnswer(c, r, frames, false).None?
    decreases |frames|
  {
    hide Taken;
    if frames != [] {
      var taken := Taken(c, r, Stripped(frames[0]));
      if taken.Some? { NoProofNoAnswer(c, taken.value, frames[1..]); }
    }
  }

  /** A reader that stops early has met a frame that breaks the law. */
  lemma AllRead(before: seq<Frame>, maximum: nat, input: seq<byte>, t: R.Transcript)
    requires R.Explains(before, maximum, false, input, t) && Lawful(before + R.CutAll(input).0, maximum, false)
    ensures t.frames == R.CutAll(input).0
  {
    hide Lawful, CleanEnd, R.CutAll;
    var frames, n := R.CutAll(input).0, |t.frames|;
    if n < |frames| {
      var all := before + frames;
      assert all[..|before| + n + 1] == before + frames[..n + 1];
      LawfulPrefix(all, |before| + n + 1, maximum, false);
    } else {
      assert frames[..n] == frames;
    }
  }

  // ----- the loop over the objects

  method TakeFrame(response: Object.FiniteResponse, f: Frame) returns (ok: bool)
    requires response.Valid() && response.View().Some?
    modifies response, response.windows, response.Live()
    ensures response.Valid() && forall o: object :: o in response.Live() && o !in old(response.Live()) ==> fresh(o)
    ensures response.View() == Taken(response.contract, old(response.View()).value, f) && ok == response.View().Some?
  {
    hide Trie.Spells, Depth, Table.StaticFields, Assembly.Accept;
    ok := true;
    if Driver.ResponseKind(f.kind) {
      var credits;
      ok, credits := response.Accept(f);
    } else if !response.ended && Driver.Intolerable(f) {
      response.Poison();
      ok := false;
    }
  }

  lemma ReadOn(g: Gate, input: seq<byte>)
    ensures Read(g, input).Got? ==>
              && |Read(g, input).rest| < |input|
              && R.Told(Read(g, input)) == R.FrameGot(Stripped(Read(g, input).frame))
  {
  }

  method EndResponse(response: Object.FiniteResponse) returns (result: Option<Result>)
    requires response.Valid() && response.View().Some?
    ensures result == Assembly.Finish(response.contract, old(response.View()).value)
  {
    result := response.Finish();
  }

  /** A frame read beside a response that is none of its business. */
  method ReadBeside(frames: R.ResponseFrameReader, stream: R.ByteStream, response: Object.FiniteResponse)
    returns (read: R.FrameRead)
    requires response.Valid() && !frames.poisoned && frames !in response.Live() && stream !in response.Live()
    modifies frames, stream
    ensures response.Valid() && response.View() == old(response.View()) && response.Live() == old(response.Live())
    ensures read == R.Told(Read(old(frames.View()), old(stream.unread))) && frames.poisoned == !read.FrameGot?
    ensures read.FrameGot? ==>
              && Read(old(frames.View()), old(stream.unread)).Got?
              && Read(old(frames.View()), old(stream.unread)).gate == frames.View()
              && Read(old(frames.View()), old(stream.unread)).rest == stream.unread
  {
    hide Trie.Spells, Depth, Table.StaticFields, Read;
    read := frames.ReadNext(stream);
  }

  /** A fresh frame reader and a fresh response, driven to the end of a transport. */
  method ReadResponse(stream: R.ByteStream, c: Assembly.Contract, nodes: seq<Trie.Record>, maximum: nat)
    returns (result: Option<Result>)
    requires c.tree.Node? && Depth(c.tree) <= 30 && Trie.Spells(nodes, 0, c.tree)
    requires c.statics == Table.StaticFields() && c.encodedMaximum <= U64_MAX
    modifies stream
    ensures result == Answer(c, Fresh(maximum, false), Assembly.Unstarted(), old(stream.unread))
  {
    hide Trie.Spells, Depth, Table.StaticFields, Taken, Read, Assembly.Finish;
    hide Object.FiniteResponse.Valid, Object.FiniteResponse.View, Object.FiniteResponse.Live;
    var frames := new R.ResponseFrameReader(maximum, false);
    var response := new Object.FiniteResponse(c, nodes);
    while true
      invariant fresh(frames) && fresh(response) && fresh(response.windows) && !frames.poisoned
      invariant forall o: object :: o in response.Live() ==> fresh(o) && o != frames
      invariant response.Valid() && response.contract == c && response.View().Some?
      invariant Answer(c, frames.View(), response.View().value, stream.unread)
             == Answer(c, Fresh(maximum, false), Assembly.Unstarted(), old(stream.unread))
      decreases |stream.unread|
    {
      ReadOn(frames.View(), stream.unread);
      var read := ReadBeside(frames, stream, response);
      if !read.FrameGot? {
        if read.TransportEnd? {
          result := EndResponse(response);
          return;
        }
        return None;
      }
      var ok := TakeFrame(response, read.frame);
      if !ok {
        return None;
      }
    }
  }
}
