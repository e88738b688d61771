/**
 * Server-sent events, octet by octet (section 9.2.5 of the WHATWG HTML Standard for the line grammar).
 *
 * `Absorb` is the decoder's step.  `Whole` reads a complete stream instead: it splits it into lines at
 * every CRLF, LF or CR, and then goes through the lines.  The two agree for every stream and every
 * way to cut it into pushes.
 */
module EventStream {
  import opened Bytes
  import opened Ascii

  const SPACE: byte := 32

  const DATA: seq<byte> := [100, 97, 116, 97]
  const EVENT: seq<byte> := [101, 118, 101, 110, 116]
  const IDENTIFIER: seq<byte> := [105, 100]

  // ----- documents

  datatype Kind = Accepted | Started | Progress | Succeeded | Failed
  datatype JobState = Queued | Running | SucceededState | FailedState

  datatype Correlation = Correlation(provenance: seq<byte>, digest: seq<byte>)

  datatype Document = Document(subscription: seq<byte>, generation: nat, operation: seq<byte>, job: seq<byte>,
                               kind: Kind,
                               state: JobState, terminal: Option<Correlation>, rest: seq<byte>)

  datatype Expectation = Expectation(subscription: seq<byte>, generation: nat, operation: seq<byte>,
                                     provenance: seq<byte>,
                                     digest: seq<byte>)

  datatype Item = Heartbeat | Delivered(document: Document, name: seq<byte>, cursor: Option<seq<byte>>)

  /**
   * The bounds, what was asked for, and the code this decoder calls: text and document decoding, the
   * retained expectations, the installed contracts, and the consumer's verdict on what it has been given.
   */
  datatype Stream = Stream(lineBytes: nat, eventBytes: nat, identifierBytes: nat, subscription: seq<byte>,
                           generation: nat,
                           utf8: seq<byte> -> bool, parse: seq<byte> -> Option<Document>, jobOk: seq<byte> -> bool,
                           operationOk: seq<byte> -> bool, resolve: seq<byte> -> Option<Expectation>,
                           installed: seq<byte> -> bool, digestOk: seq<byte> -> bool, consume: seq<Item> -> bool)

  function StateOf(kind: Kind): JobState {
    match kind
    case Accepted => Queued
    case Started => Running
    case Progress => Running
    case Succeeded => SucceededState
    case Failed => FailedState
  }

  predicate Terminal(kind: Kind) { kind == Succeeded || kind == Failed }

  /** A document that belongs to the stream that was asked for. */
  predicate Requested(s: Stream, d: Document) {
    && s.jobOk(d.job) && d.state == StateOf(d.kind)
    && d.subscription == s.subscription && d.generation == s.generation && s.operationOk(d.operation)
  }

  /** What an ending must repeat of the retained submission it ends. */
  predicate Authenticated(s: Stream, d: Document, c: Correlation) {
    && s.resolve(d.operation).Some?
    && var x := s.resolve(d.operation).value;
       && x.subscription == s.subscription && x.generation == s.generation && x.operation == d.operation
       && s.installed(x.provenance) && s.digestOk(x.digest)
       && c.provenance == x.provenance && c.digest == x.digest
  }

  /** An ending authenticates itself, and nothing else tries to. */
  predicate Correlated(s: Stream, d: Document) {
    match d.terminal
    case None => !Terminal(d.kind)
    case Some(c) => Terminal(d.kind) && Authenticated(s, d, c)
  }

  // ----- one line

  /** An event being assembled. */
  datatype Event = Event(data: seq<byte>, name: seq<byte>, cursor: Option<seq<byte>>, bytes: nat, seen: bool)

  const NOTHING: Event := Event([], [], None, 0, false)

  function FieldName(line: seq<byte>): seq<byte> { line[..FirstColon(line)] }

  /** One leading space is not part of a value. */
  function FieldValue(line: seq<byte>): seq<byte> {
    if FirstColon(line) == |line| then []
    else
      var raw := line[FirstColon(line) + 1..];
      if raw != [] && raw[0] == SPACE then raw[1..] else raw
  }

  function AbsorbField(s: Stream, e: Event, line: seq<byte>): Option<Event> {
    var name, value := FieldName(line), FieldValue(line);
    if name == DATA then Some(e.(data := e.data + value + [LF], seen := true))
    else if name == EVENT then Some(e.(name := value, seen := true))
    else if name == IDENTIFIER then
      if |value| > s.identifierBytes then None else Some(e.(cursor := Some(value), seen := true))
    else Some(e)
  }

  function Payload(e: Event): seq<byte> {
    if e.data != [] && e.data[|e.data| - 1] == LF then e.data[..|e.data| - 1] else e.data
  }

  /** The event a blank line ends. */
  function Dispatch(s: Stream, e: Event): Option<Option<Item>> {
    if !e.seen then Some(None)
    else match s.parse(Payload(e))
      case None => None
      case Some(d) =>
        if !Requested(s, d) || !Correlated(s, d) then None
        else if e.cursor.Some? && |e.cursor.value| > s.identifierBytes then None
        else Some(Some(Delivered(d, e.name, e.cursor)))
  }

  /** What a complete line does to the event and what it delivers. */
  function CompleteLine(s: Stream, e: Event, line: seq<byte>): Option<(Event, Option<Item>)> {
    if !s.utf8(line) then None
    else if line == [] then (match Dispatch(s, e) case None => None case Some(item) => Some((NOTHING, item)))
    else if line[0] == COLON then Some((e, Some(Heartbeat)))
    else if e.bytes + |line| > s.eventBytes then None
    else match AbsorbField(s, e.(bytes := e.bytes + |line|), line)
      case None => None
      case Some(next) => Some((next, None))
  }

  // ----- one octet

  datatype Decoder = Decoder(afterReturn: bool, pending: seq<byte>, event: Event)

  /** What has been delivered; `None` is a decoder closed by a refusal. */
  datatype Reading = Reading(decoder: Option<Decoder>, items: seq<Item>)

  function Line(s: Stream, d: Decoder): Option<(Decoder, Option<Item>)> {
    match CompleteLine(s, d.event, d.pending)
    case None => None
    case Some((event, item)) => Some((d.(pending := [], event := event), item))
  }

  function Absorb(s: Stream, d: Decoder, octet: byte): Option<(Decoder, Option<Item>)> {
    if octet == CR then Line(s, d.(afterReturn := true))
    else if octet == LF then
      if d.afterReturn then Some((d.(afterReturn := false), None)) else Line(s, d)
    else if |d.pending| + 1 > s.lineBytes then None
    else Some((d.(afterReturn := false, pending := d.pending + [octet]), None))
  }

  function Delivery(s: Stream, d: Option<Decoder>, items: seq<Item>, item: Option<Item>): Reading {
    match item
    case None => Reading(d, items)
    case Some(i) => if s.consume(items + [i]) then Reading(d, items + [i]) else Reading(None, items)
  }

  function Step(s: Stream, r: Reading, octet: byte): Reading {
    match r.decoder
    case None => r
    case Some(d) =>
      match Absorb(s, d, octet)
      case None => Reading(None, r.items)
      case Some((next, item)) => Delivery(s, Some(next), r.items, item)
  }

  function Feed(s: Stream, r: Reading, octets: seq<byte>): Reading
    decreases |octets|
  {
    if octets == [] then r else Feed(s, Step(s, r, octets[0]), octets[1..])
  }

  const START: Reading := Reading(Some(Decoder(false, [], NOTHING)), [])

  // ----- whole streams

  /** How long the terminator at n is. */
  function TerminatorBytes(octets: seq<byte>, n: nat): nat
    requires n < |octets|
  {
    if octets[n] == CR && n + 1 < |octets| && octets[n + 1] == LF then 2 else 1
  }

  /** The complete lines of a stream, and the unfinished one behind them. */
  function Split(octets: seq<byte>): (seq<seq<byte>>, seq<byte>)
    decreases |octets|
  {
    var n := LineEnd(octets);
    if n == |octets| then ([], octets)
    else
      var (lines, rest) := Split(octets[n + TerminatorBytes(octets, n)..]);
      ([octets[..n]] + lines, rest)
  }

  /** What can be seen of a reading: its items, and the event under way unless it is closed. */
  datatype Seen = Seen(event: Option<Event>, items: seq<Item>)

  function NextLine(s: Stream, e: Event, items: seq<Item>, line: seq<byte>): Seen {
    if |line| > s.lineBytes then Seen(None, items)
    else match CompleteLine(s, e, line)
      case None => Seen(None, items)
      case Some((event, None)) => Seen(Some(event), items)
      case Some((event, Some(i))) =>
        if s.consume(items + [i]) then Seen(Some(event), items + [i]) else Seen(None, items)
  }

  function Fold(s: Stream, seen: Seen, lines: seq<seq<byte>>): Seen
    decreases |lines|
  {
    if lines == [] || seen.event.None? then seen
    else Fold(s, NextLine(s, seen.event.value, seen.items, lines[0]), lines[1..])
  }

  /** Lines first, then the fold; an unfinished line can only be too long. */
  function WholeFrom(s: Stream, seen: Seen, octets: seq<byte>): Seen {
    var (lines, rest) := Split(octets);
    var folded := Fold(s, seen, lines);
    if folded.event.Some? && |rest| > s.lineBytes then Seen(None, folded.items) else folded
  }

  function Whole(s: Stream, octets: seq<byte>): Seen { WholeFrom(s, Seen(Some(NOTHING), []), octets) }

  function View(r: Reading): Seen {
    Seen(match r.decoder case None => None case Some(d) => Some(d.event), r.items)
  }

  // ----- agreement

  lemma {:induction false} FeedClosed(s: Stream, items: seq<Item>, octets: seq<byte>)
    ensures Feed(s, Reading(None, items), octets) == Reading(None, items)
    decreases |octets|
  {
    if octets != [] { FeedClosed(s, items, octets[1..]); }
  }

  lemma {:induction false} FeedAppend(s: Stream, r: Reading, a: seq<byte>, b: seq<byte>)
    ensures Feed(s, r, a + b) == Feed(s, Feed(s, r, a), b)
    decreases |a|
  {
    if a == [] {
      assert a + b == b;
    } else {
      assert (a + b)[0] == a[0] && (a + b)[1..] == a[1..] + b;
      FeedAppend(s, Step(s, r, a[0]), a[1..], b);
    }
  }

  /** Text without a terminator only lengthens the pending line. */
  lemma {:induction false} FeedText(s: Stream, d: Decoder, items: seq<Item>, text: seq<byte>)
    requires (forall i :: 0 <= i < |text| ==> !IsTerminator(text[i])) && |d.pending| <= s.lineBytes
    ensures Feed(s, Reading(Some(d), items), text) ==
            if |d.pending| + |text| > s.lineBytes then Reading(None, items)
            else Reading(Some(Decoder(d.afterReturn && text == [], d.pending + text, d.event)), items)
    decreases |text|
  {
    if text == [] {
      assert d.pending + text == d.pending;
    } else {
      var next := Step(s, Reading(Some(d), items), text[0]);
      if |d.pending| + 1 > s.lineBytes {
        FeedClosed(s, items, text[1..]);
      } else {
        FeedText(s, next.decoder.value, items, text[1..]);
        assert d.pending + [text[0]] + text[1..] == d.pending + text;
      }
    }
  }

  /** Whether the last octet was a carriage return matters to a line feed only. */
  lemma ReturnForgotten(s: Stream, d: Decoder, items: seq<Item>, octets: seq<byte>)
    requires octets == [] || octets[0] != LF
    ensures View(Feed(s, Reading(Some(d.(afterReturn := true)), items), octets))
         == View(Feed(s, Reading(Some(d.(afterReturn := false)), items), octets))
  {
  }

  /** A whole line and its terminator. */
  lemma FeedLine(s: Stream, e: Event, items: seq<Item>, line: seq<byte>, terminator: byte)
    requires (forall i :: 0 <= i < |line| ==> !IsTerminator(line[i])) && IsTerminator(terminator)
    ensures var r := Feed(s, Reading(Some(Decoder(false, [], e)), items), line + [terminator]);
            var seen := NextLine(s, e, items, line);
            && r.items == seen.items
            && r.decoder == match seen.event
              case None => None
              case Some(next) => Some(Decoder(terminator == CR, [], next))
  {
    var d := Decoder(false, [], e);
    FeedAppend(s, Reading(Some(d), items), line, [terminator]);
    FeedText(s, d, items, line);
    assert [] + line == line;
    var r := Feed(s, Reading(Some(d), items), line);
    assert Feed(s, r, [terminator]) == Step(s, r, terminator) by { assert [terminator][1..] == []; }
  }

  lemma SplitLine(octets: seq<byte>)
    requires LineEnd(octets) < |octets|
    ensures var n := LineEnd(octets);
            var behind := Split(octets[n + TerminatorBytes(octets, n)..]);
            Split(octets) == ([octets[..n]] + behind.0, behind.1)
  {
  }

  lemma FoldLine(s: Stream, e: Event, items: seq<Item>, line: seq<byte>, lines: seq<seq<byte>>)
    ensures Fold(s, Seen(Some(e), items), [line] + lines) == Fold(s, NextLine(s, e, items, line), lines)
  {
    hide NextLine;
    assert ([line] + lines)[0] == line && ([line] + lines)[1..] == lines;
  }

  /** The first line of a stream, and the stream behind it. */
  lemma WholeLine(s: Stream, e: Event, items: seq<Item>, octets: seq<byte>, line: seq<byte>, after: seq<byte>)
    requires Split(octets) == ([line] + Split(after).0, Split(after).1)
    ensures WholeFrom(s, Seen(Some(e), items), octets) == WholeFrom(s, NextLine(s, e, items, line), after)
  {
    hide NextLine, Split, Fold;
    FoldLine(s, e, items, line, Split(after).0);
  }

  /** The same for the decoder, up to the end of the line. */
  lemma FeedFirst(s: Stream, e: Event, items: seq<Item>, octets: seq<byte>)
    requires LineEnd(octets) < |octets|
    ensures var n := LineEnd(octets);
            var seen := NextLine(s, e, items, octets[..n]);
            Feed(s, Reading(Some(Decoder(false, [], e)), items), octets) ==
            if seen.event.None? then Reading(None, seen.items)
            else Feed(s, Reading(Some(Decoder(octets[n] == CR, [], seen.event.value)), seen.items), octets[n + 1..])
  {
    hide NextLine, Feed;
    var n := LineEnd(octets);
    var line, rest := octets[..n], octets[n + 1..];
    var seen := NextLine(s, e, items, line);
    assert octets == line + [octets[n]] + rest;
    FeedAppend(s, Reading(Some(Decoder(false, [], e)), items), line + [octets[n]], rest);
    FeedLine(s, e, items, line, octets[n]);
    FeedClosed(s, seen.items, rest);
  }

  lemma {:induction false} FeedAgrees(s: Stream, e: Event, items: seq<Item>, octets: seq<byte>)
    ensures View(Feed(s, Reading(Some(Decoder(false, [], e)), items), octets)) ==
              WholeFrom(s, Seen(Some(e), items), octets)
    decreases |octets|
  {
    hide NextLine, Feed, WholeFrom, Split;
    var n := LineEnd(octets);
    if n == |octets| {
      FeedText(s, Decoder(false, [], e), items, octets);
      WholeText(s, e, items, octets);
    } else {
      var line, after := octets[..n], octets[n + TerminatorBytes(octets, n)..];
      var seen := NextLine(s, e, items, line);
      FeedFirst(s, e, items, octets);
      SplitLine(octets);
      WholeLine(s, e, items, octets, line, after);
      match seen.event {
        case None => WholeClosed(s, seen, after);
        case Some(next) =>
          FeedAgrees(s, next, seen.items, after);
          AfterTerminator(s, next, seen.items, octets[n], octets[n + 1..]);
      }
    }
  }

  lemma WholeText(s: Stream, e: Event, items: seq<Item>, octets: seq<byte>)
    requires LineEnd(octets) == |octets|
    ensures WholeFrom(s, Seen(Some(e), items), octets) == Seen(if |octets| > s.lineBytes then None else Some(e), items)
  {
  }

  lemma WholeClosed(s: Stream, seen: Seen, octets: seq<byte>)
    requires seen.event.None?
    ensures WholeFrom(s, seen, octets) == seen
  {
  }

  /** A line feed right behind a carriage return belongs to it. */
  lemma AfterTerminator(s: Stream, e: Event, items: seq<Item>, terminator: byte, rest: seq<byte>)
    requires IsTerminator(terminator)
    ensures View(Feed(s, Reading(Some(Decoder(terminator == CR, [], e)), items), rest)) ==
            View(Feed(s, Reading(Some(Decoder(false, [], e)), items),
                      if terminator == CR && rest != [] && rest[0] == LF then rest[1..] else rest))
  {
    if terminator == CR {
      if rest != [] && rest[0] == LF {
        assert Step(s, Reading(Some(Decoder(true, [], e)), items), LF) == Reading(Some(Decoder(false, [], e)), items);
      } else {
        ReturnForgotten(s, Decoder(false, [], e), items, rest);
      }
    }
  }

  function Pushed(s: Stream, r: Reading, chunks: seq<seq<byte>>): Reading
    decreases |chunks|
  {
    if chunks == [] then r else Pushed(s, Feed(s, r, chunks[0]), chunks[1..])
  }

  lemma {:induction false} PushedIsFeed(s: Stream, r: Reading, chunks: seq<seq<byte>>)
    ensures Pushed(s, r, chunks) == Feed(s, r, Concat(chunks))
    decreases |chunks|
  {
    if chunks != [] {
      PushedIsFeed(s, Feed(s, r, chunks[0]), chunks[1..]);
      FeedAppend(s, r, chunks[0], Concat(chunks[1..]));
    }
  }

  /** Every stream in every chunking delivers what the whole-stream reader delivers, and closes when it refuses. */
  lemma AnyChunks(s: Stream, chunks: seq<seq<byte>>)
    ensures View(Pushed(s, START, chunks)) == Whole(s, Concat(chunks))
  {
    PushedIsFeed(s, START, chunks);
    FeedAgrees(s, NOTHING, [], Concat(chunks));
  }

  /** Behind a refusal nothing is delivered, and what was delivered stands. */
  lemma RefusalIsFinal(s: Stream, before: seq<seq<byte>>, more: seq<seq<byte>>)
    requires Pushed(s, START, before).decoder.None?
    ensures Pushed(s, START, before + more) == Pushed(s, START, before)
  {
    PushedIsFeed(s, START, before);
    PushedIsFeed(s, START, before + more);
    ConcatAppend(before, more);
    FeedAppend(s, START, Concat(before), Concat(more));
    FeedClosed(s, Pushed(s, START, before).items, Concat(more));
  }

  // ----- spelling of terminators

  predicate Unbroken(text: seq<byte>) { forall i :: 0 <= i < |text| ==> !IsTerminator(text[i]) }

  predicate AllUnbroken(lines: seq<seq<byte>>) { forall i :: 0 <= i < |lines| ==> Unbroken(lines[i]) }

  /** How the end of one line may be spelled. */
  datatype Ending = LineFeed | CarriageReturn | Both

  function Spelling(e: Ending): seq<byte> {
    match e case LineFeed => [LF] case CarriageReturn => [CR] case Both => [CR, LF]
  }

  /** Lines, each with its own spelling of its end, and an unfinished one. */
  function Spelled(lines: seq<seq<byte>>, ends: seq<Ending>, rest: seq<byte>): seq<byte>
    requires |ends| == |lines|
  {
    if lines == [] then rest else lines[0] + Spelling(ends[0]) + Spelled(lines[1..], ends[1..], rest)
  }

  /** A carriage return right before the line feed of an empty line: the two would be read as one end. */
  predicate Merges(lines: seq<seq<byte>>, ends: seq<Ending>)
    requires |ends| == |lines|
  {
    |lines| > 1 && ends[0] == CarriageReturn && lines[1] == [] && ends[1] == LineFeed
  }

  /** The lines such a spelling stands for. */
  function Meant(lines: seq<seq<byte>>, ends: seq<Ending>): (meant: seq<seq<byte>>)
    requires |ends| == |lines|
    ensures |meant| <= |lines|
    decreases |lines|
  {
    if lines == [] then []
    else if Merges(lines, ends) then [lines[0]] + Meant(lines[2..], ends[2..])
    else [lines[0]] + Meant(lines[1..], ends[1..])
  }

  lemma {:induction false} LineEndAt(text: seq<byte>, more: seq<byte>)
    requires Unbroken(text) && (more == [] || IsTerminator(more[0]))
    ensures LineEnd(text + more) == |text|
    decreases |text|
  {
    if text == [] {
      assert text + more == more;
    } else {
      assert (text + more)[1..] == text[1..] + more;
      LineEndAt(text[1..], more);
    }
  }

  /** What is spelled begins with a line feed exactly when its first line is empty and ends in one. */
  lemma SpelledFirst(lines: seq<seq<byte>>, ends: seq<Ending>, rest: seq<byte>)
    requires |ends| == |lines| && AllUnbroken(lines) && Unbroken(rest)
    ensures var all := Spelled(lines, ends, rest);
            all != [] && all[0] == LF <==> lines != [] && lines[0] == [] && ends[0] == LineFeed
  {
    if lines != [] {
      var more := Spelled(lines[1..], ends[1..], rest);
      var all := lines[0] + Spelling(ends[0]) + more;
      if lines[0] != [] {
        assert all[0] == lines[0][0];
      } else {
        assert all[0] == Spelling(ends[0])[0];
      }
    }
  }

  /** The first line and its end come off the front of a spelling. */
  lemma SplitFirst(line: seq<byte>, end: seq<byte>, more: seq<byte>)
    requires Unbroken(line) && (end == [LF] || end == [CR] || end == [CR, LF])
    requires end == [CR] ==> more == [] || more[0] != LF
    ensures Split(line + end + more) == ([line] + Split(more).0, Split(more).1)
  {
    var all := line + end + more;
    assert all == line + (end + more);
    LineEndAt(line, end + more);
    assert all[|line|] == end[0] && all[..|line|] == line;
    if |end| == 1 && more != [] { assert all[|line| + 1] == more[0]; }
    assert TerminatorBytes(all, |line|) == |end| && all[|line| + |end|..] == more;
  }

  /** Any spelling splits into the lines it stands for. */
  lemma {:induction false} SplitSpelled(lines: seq<seq<byte>>, ends: seq<Ending>, rest: seq<byte>)
    requires |ends| == |lines| && AllUnbroken(lines) && Unbroken(rest)
    ensures Split(Spelled(lines, ends, rest)) == (Meant(lines, ends), rest)
    decreases |lines|
  {
    hide Split;
    if lines == [] {
      SplitNothing(rest);
    } else if Merges(lines, ends) {
      var more := Spelled(lines[2..], ends[2..], rest);
      SplitSpelled(lines[2..], ends[2..], rest);
      SplitFirst(lines[0], [CR, LF], more);
      assert lines[1..][1..] == lines[2..] && ends[1..][1..] == ends[2..];
      assert Spelled(lines[1..], ends[1..], rest) == [] + [LF] + more;
      assert Spelled(lines, ends, rest) == lines[0] + [CR, LF] + more;
    } else {
      SplitSpelled(lines[1..], ends[1..], rest);
      SpelledFirst(lines[1..], ends[1..], rest);
      SplitFirst(lines[0], Spelling(ends[0]), Spelled(lines[1..], ends[1..], rest));
    }
  }

  lemma SplitNothing(rest: seq<byte>)
    requires Unbroken(rest)
    ensures Split(rest) == ([], rest)
  {
    LineEndAt(rest, []);
    assert rest + [] == rest;
  }

  /** No carriage return stands before the line feed of an empty line. */
  predicate Distinct(lines: seq<seq<byte>>, ends: seq<Ending>)
    requires |ends| == |lines|
  {
    forall i :: 0 <= i < |lines| ==> !Merges(lines[i..], ends[i..])
  }

  lemma DistinctMore(lines: seq<seq<byte>>, ends: seq<Ending>)
    requires |ends| == |lines| > 0
    ensures Distinct(lines, ends) <==> !Merges(lines, ends) && Distinct(lines[1..], ends[1..])
  {
    hide Merges;
    var fewer, less := lines[1..], ends[1..];
    assert lines[0..] == lines && ends[0..] == ends;
    if Distinct(lines, ends) {
      forall i | 0 <= i < |fewer| ensures !Merges(fewer[i..], less[i..]) {
        assert fewer[i..] == lines[i + 1..] && less[i..] == ends[i + 1..];
      }
    } else if !Merges(lines, ends) {
      var i :| 0 <= i < |lines| && Merges(lines[i..], ends[i..]);
      assert fewer[i - 1..] == lines[i..] && less[i - 1..] == ends[i..];
    }
  }

  /** Exactly then every line is read as itself. */
  lemma {:induction false} MeantIff(lines: seq<seq<byte>>, ends: seq<Ending>)
    requires |ends| == |lines|
    ensures Meant(lines, ends) == lines <==> Distinct(lines, ends)
    decreases |lines|
  {
    hide Distinct, Merges;
    if lines == [] {
      NoneDistinct(lines, ends);
    } else {
      DistinctMore(lines, ends);
      MeantIff(lines[1..], ends[1..]);
      MergesHasTwo(lines, ends);
      assert lines == [lines[0]] + lines[1..];
    }
  }

  lemma NoneDistinct(lines: seq<seq<byte>>, ends: seq<Ending>)
    requires |ends| == |lines| == 0
    ensures Distinct(lines, ends)
  {
  }

  lemma MergesHasTwo(lines: seq<seq<byte>>, ends: seq<Ending>)
    requires |ends| == |lines|
    ensures Merges(lines, ends) ==> |lines| > 1
  {
  }

  /** Spelling line ends one way or another, line by line, makes no difference to what is delivered. */
  lemma SpellingIrrelevant(s: Stream, lines: seq<seq<byte>>, rest: seq<byte>, these: seq<Ending>, those: seq<Ending>)
    requires |these| == |those| == |lines| && AllUnbroken(lines) && Unbroken(rest)
    requires Distinct(lines, these) && Distinct(lines, those)
    ensures View(Feed(s, START, Spelled(lines, these, rest))) == View(Feed(s, START, Spelled(lines, those, rest)))
  {
    FeedAgrees(s, NOTHING, [], Spelled(lines, these, rest));
    FeedAgrees(s, NOTHING, [], Spelled(lines, those, rest));
    SplitSpelled(lines, these, rest);
    SplitSpelled(lines, those, rest);
    MeantIff(lines, these);
    MeantIff(lines, those);
  }

  /** One spelling throughout, whichever it is, is always such a choice. */
  lemma UniformIsDistinct(lines: seq<seq<byte>>, end: Ending)
    ensures Distinct(lines, seq(|lines|, _ => end))
  {
  }

  // ----- bounds and authenticity in every reachable state

  predicate Bounded(s: Stream, e: Event) {
    |e.data| <= e.bytes <= s.eventBytes && (e.cursor.Some? ==> |e.cursor.value| <= s.identifierBytes)
  }

  predicate Genuine(s: Stream, item: Item) {
    item.Delivered? ==> Requested(s, item.document) && Correlated(s, item.document) &&
                        (item.cursor.Some? ==> |item.cursor.value| <= s.identifierBytes)
  }

  ghost predicate Sound(s: Stream, r: Reading) {
    && (r.decoder.Some? ==> |r.decoder.value.pending| <= s.lineBytes && Bounded(s, r.decoder.value.event))
    && (forall i :: 0 <= i < |r.items| ==> Genuine(s, r.items[i]))
    && (forall k :: 0 < k <= |r.items| ==> s.consume(r.items[..k]))
  }

  lemma LineSound(s: Stream, e: Event, line: seq<byte>)
    requires Bounded(s, e) && CompleteLine(s, e, line).Some?
    ensures var (next, item) := CompleteLine(s, e, line).value;
            Bounded(s, next) && (item.Some? ==> Genuine(s, item.value))
  {
    if line != [] && line[0] != COLON {
      assert |FieldValue(line)| < |line|;
    }
  }

  lemma StepSound(s: Stream, r: Reading, octet: byte)
    requires Sound(s, r)
    ensures Sound(s, Step(s, r, octet))
  {
    hide CompleteLine, Genuine, Bounded;
    if r.decoder.Some? {
      var d, next := r.decoder.value, Step(s, r, octet);
      if CompleteLine(s, d.event, d.pending).Some? { LineSound(s, d.event, d.pending); }
      if |next.items| > |r.items| {
        assert next.items[..|r.items|] == r.items;
        assert forall k :: 0 < k <= |r.items| ==> next.items[..k] == r.items[..k];
        assert next.items[..|next.items|] == next.items;
      }
    }
  }

  /**
   * However the far side writes: no pending line outgrows the line bound, no event's data outgrows the
   * event bound, every delivered event was asked for and authenticated, and the consumer took each.
   */
  lemma {:induction false} FeedSound(s: Stream, r: Reading, octets: seq<byte>)
    requires Sound(s, r)
    ensures Sound(s, Feed(s, r, octets))
    decreases |octets|
  {
    hide Sound, Step;
    if octets != [] {
      StepSound(s, r, octets[0]);
      FeedSound(s, Step(s, r, octets[0]), octets[1..]);
    }
  }

  // ----- what an event is made of

  /** The values of a field, in order. */
  function Values(lines: seq<seq<byte>>, name: seq<byte>): seq<seq<byte>> {
    if lines == [] then []
    else
      var line := lines[|lines| - 1];
      Values(lines[..|lines| - 1], name) + (if FieldName(line) == name then [FieldValue(line)] else [])
  }

  function LastOr(values: seq<seq<byte>>, default: seq<byte>): seq<byte> {
    if values == [] then default else values[|values| - 1]
  }

  function Ended(values: seq<seq<byte>>): seq<byte> {
    if values == [] then [] else Ended(values[..|values| - 1]) + values[|values| - 1] + [LF]
  }

  /** Values joined by line feeds. */
  function Joined(values: seq<seq<byte>>): seq<byte> {
    if values == [] then [] else if |values| == 1 then values[0]
    else Joined(values[..|values| - 1]) + [LF] + values[|values| - 1]
  }

  function TotalBytes(lines: seq<seq<byte>>): nat {
    if lines == [] then 0 else TotalBytes(lines[..|lines| - 1]) + |lines[|lines| - 1]|
  }

  predicate FieldLines(lines: seq<seq<byte>>) {
    forall i :: 0 <= i < |lines| ==> lines[i] != [] && lines[i][0] != COLON
  }

  /** The event some field lines add up to. */
  function Assembled(lines: seq<seq<byte>>): Event {
    var cursors := Values(lines, IDENTIFIER);
    var data, names := Values(lines, DATA), Values(lines, EVENT);
    Event(Ended(data), LastOr(names, []), if cursors == [] then None else Some(LastOr(cursors, [])), TotalBytes(lines),
          data != [] || names != [] || cursors != [])
  }

  lemma AssembledMore(s: Stream, lines: seq<seq<byte>>, line: seq<byte>)
    requires FieldLines(lines) && line != [] && line[0] != COLON
    requires CompleteLine(s, Assembled(lines), line).Some?
    ensures CompleteLine(s, Assembled(lines), line).value == (Assembled(lines + [line]), None)
  {
    hide FieldName, FieldValue;
    var all := lines + [line];
    assert all[..|lines|] == lines && all[|lines|] == line;
    var values, value := Values(lines, DATA), FieldValue(line);
    assert (values + [value])[..|values|] == values;
    assert Values(lines, EVENT) + [] == Values(lines, EVENT) && values + [] == values;
    assert Values(lines, IDENTIFIER) + [] == Values(lines, IDENTIFIER);
  }

  lemma {:induction false} EndedIsJoined(values: seq<seq<byte>>)
    requires values != []
    ensures Ended(values) == Joined(values) + [LF]
  {
    if |values| > 1 {
      EndedIsJoined(values[..|values| - 1]);
    }
  }

  /**
   * Field lines that were taken since the last blank line stand for their values: the payload is all
   * `data` values joined by line feeds, name and cursor are the last ones given.
   */
  lemma {:induction false} GroupMeans(s: Stream, items: seq<Item>, lines: seq<seq<byte>>)
    requires FieldLines(lines) && Fold(s, Seen(Some(NOTHING), items), lines).event.Some?
    ensures Fold(s, Seen(Some(NOTHING), items), lines) == Seen(Some(Assembled(lines)), items)
    ensures Payload(Assembled(lines)) == Joined(Values(lines, DATA))
    decreases |lines|
  {
    hide Assembled, CompleteLine;
    if lines == [] {
      NothingAssembled(lines);
    } else {
      var before, line := lines[..|lines| - 1], lines[|lines| - 1];
      assert lines == before + [line];
      FoldSnoc(s, Seen(Some(NOTHING), items), before, line);
      GroupMeans(s, items, before);
      AssembledMore(s, before, line);
    }
    PayloadMeans(lines);
  }

  lemma NothingAssembled(lines: seq<seq<byte>>)
    requires lines == []
    ensures Assembled(lines) == NOTHING
  {
  }

  lemma PayloadMeans(lines: seq<seq<byte>>)
    ensures Payload(Assembled(lines)) == Joined(Values(lines, DATA))
  {
    if Values(lines, DATA) != [] { EndedIsJoined(Values(lines, DATA)); }
  }

  lemma {:induction false} FoldSnoc(s: Stream, seen: Seen, lines: seq<seq<byte>>, line: seq<byte>)
    ensures Fold(s, seen, lines + [line]) ==
            var before := Fold(s, seen, lines);
            if before.event.None? then before else NextLine(s, before.event.value, before.items, line)
    decreases |lines|
  {
    hide NextLine;
    var all := lines + [line];
    if seen.event.Some? {
      if lines == [] {
        assert all[1..] == [];
      } else {
        assert all[0] == lines[0] && all[1..] == lines[1..] + [line];
        FoldSnoc(s, NextLine(s, seen.event.value, seen.items, lines[0]), lines[1..], line);
      }
    }
  }

  // ----- what a blank line delivers

  /** A document this stream may deliver, point by point. */
  predicate Acceptable(s: Stream, d: Document) {
    && s.jobOk(d.job) && s.operationOk(d.operation)
    && d.subscription == s.subscription && d.generation == s.generation
    && (d.kind == Accepted ==> d.state == Queued && d.terminal == None)
    && (d.kind == Started || d.kind == Progress ==> d.state == Running && d.terminal == None)
    && (d.kind == Succeeded ==> d.state == SucceededState)
    && (d.kind == Failed ==> d.state == FailedState)
    && (d.kind == Succeeded || d.kind == Failed ==>
          && d.terminal.Some? && s.resolve(d.operation).Some?
          && Retained(s, d.operation, d.terminal.value, s.resolve(d.operation).value))
  }

  /** An ending names this stream's own submission, under contracts that are installed. */
  predicate Retained(s: Stream, operation: seq<byte>, c: Correlation, x: Expectation) {
    x == Expectation(s.subscription, s.generation, operation, c.provenance, c.digest) && s.installed(c.provenance) &&
    s.digestOk(c.digest)
  }

  lemma AcceptableIff(s: Stream, d: Document)
    ensures Requested(s, d) && Correlated(s, d) <==> Acceptable(s, d)
  {
  }

  predicate Known(lines: seq<seq<byte>>) {
    exists i :: 0 <= i < |lines| && FieldName(lines[i]) in {Octets("data"), Octets("event"), Octets("id")}
  }

  /** What field lines and the blank line behind them come to. */
  function BlankLine(s: Stream, items: seq<Item>, lines: seq<seq<byte>>): Seen {
    var ids := Values(lines, Octets("id"));
    if !Known(lines) then Seen(Some(NOTHING), items)
    else match s.parse(Joined(Values(lines, Octets("data"))))
      case None => Seen(None, items)
      case Some(d) =>
        var item := Delivered(d, LastOr(Values(lines, Octets("event")), []), if ids == [] then None
            else Some(LastOr(ids, [])));
        if Acceptable(s, d) && s.consume(items + [item]) then Seen(Some(NOTHING), items + [item]) else Seen(None, items)
  }

  lemma FieldSpellings()
    ensures DATA == Octets("data") && EVENT == Octets("event") && IDENTIFIER == Octets("id")
  {
  }

  lemma {:induction false} KnownIff(lines: seq<seq<byte>>)
    ensures Known(lines) <==> Assembled(lines).seen
    decreases |lines|
  {
    hide FieldName, FieldValue;
    FieldSpellings();
    if lines != [] {
      var before, line := lines[..|lines| - 1], lines[|lines| - 1];
      KnownIff(before);
      if Known(before) {
        var i :| 0 <= i < |before| && FieldName(before[i]) in {DATA, EVENT, IDENTIFIER};
        assert FieldName(lines[i]) in {DATA, EVENT, IDENTIFIER};
      }
    }
  }

  /** An id that was taken fits. */
  lemma {:induction false} LastFits(s: Stream, items: seq<Item>, lines: seq<seq<byte>>)
    requires FieldLines(lines) && Fold(s, Seen(Some(NOTHING), items), lines).event.Some?
    ensures var ids := Values(lines, IDENTIFIER); ids != [] ==> |LastOr(ids, [])| <= s.identifierBytes
    decreases |lines|
  {
    hide FieldName, FieldValue, Assembled;
    if lines != [] {
      var before, line := lines[..|lines| - 1], lines[|lines| - 1];
      assert lines == before + [line];
      FoldSnoc(s, Seen(Some(NOTHING), items), before, line);
      LastFits(s, items, before);
      assert Values(before, IDENTIFIER) + [] == Values(before, IDENTIFIER);
    }
  }

  /**
   * Field lines since the last blank line, and then a blank line: nothing if none of them was known; else
   * the document their data spells, with the last name and the last id given, if it is acceptable and the
   * consumer takes it; else the stream is closed.
   */
  lemma BlankLineDelivers(s: Stream, items: seq<Item>, lines: seq<seq<byte>>)
    requires FieldLines(lines) && s.utf8([]) && Fold(s, Seen(Some(NOTHING), items), lines).event.Some?
    ensures Fold(s, Seen(Some(NOTHING), items), lines + [[]]) == BlankLine(s, items, lines)
  {
    hide Fold, Assembled, Acceptable, Requested, Correlated, Known;
    FieldSpellings();
    GroupMeans(s, items, lines);
    FoldSnoc(s, Seen(Some(NOTHING), items), lines, []);
    KnownIff(lines);
    LastFits(s, items, lines);
    var d := s.parse(Joined(Values(lines, DATA)));
    if d.Some? { AcceptableIff(s, d.value); }
    assert NextLine(s, Assembled(lines), items, []) == BlankLine(s, items, lines) by { EventOf(lines); }
  }

  lemma EventOf(lines: seq<seq<byte>>)
    ensures var ids, e := Values(lines, IDENTIFIER), Assembled(lines);
            && e.name == LastOr(Values(lines, EVENT), [])
            && e.cursor == if ids == [] then None else Some(LastOr(ids, []))
  {
  }

  /** A field line is taken exactly within the line, event and identifier bounds, and delivers nothing. */
  lemma FieldLineTakenIff(s: Stream, e: Event, items: seq<Item>, line: seq<byte>)
    requires line != [] && line[0] != COLON
    ensures NextLine(s, e, items, line).items == items
    ensures NextLine(s, e, items, line).event.Some? <==>
              && |line| <= s.lineBytes && s.utf8(line) && e.bytes + |line| <= s.eventBytes
              && (FieldName(line) == Octets("id") ==> |FieldValue(line)| <= s.identifierBytes)
  {
    hide FieldName, FieldValue;
    FieldSpellings();
  }

  /** A comment is a heartbeat and touches no event. */
  lemma CommentBeats(s: Stream, e: Event, items: seq<Item>, text: seq<byte>)
    requires s.utf8([COLON] + text) && |text| < s.lineBytes
    ensures NextLine(s, e, items, [COLON] + text) ==
            if s.consume(items + [Heartbeat]) then Seen(Some(e), items + [Heartbeat]) else Seen(None, items)
  {
  }

  /** How a field is written: a name, a colon, one space that does not count, a value. */
  lemma FieldRead(name: seq<byte>, value: seq<byte>)
    requires COLON !in name
    ensures FieldName(name + [COLON, 32] + value) == name && FieldValue(name + [COLON, 32] + value) == value
    ensures value == [] || value[0] != 32 ==>
              FieldName(name + [COLON] + value) == name && FieldValue(name + [COLON] + value) == value
    ensures FieldName(name) == name && FieldValue(name) == []
  {
    var spaced, plain := name + [COLON, 32] + value, name + [COLON] + value;
    assert spaced == name + ([COLON, 32] + value) && plain == name + ([COLON] + value) && name == name + [];
    ColonBehind(name, [COLON, 32] + value);
    ColonBehind(name, [COLON] + value);
    ColonBehind(name, []);
    assert spaced[|name| + 1..] == [32] + value && ([32] + value)[1..] == value && plain[|name| + 1..] == value;
    assert spaced[..|name|] == name && plain[..|name|] == name && name[..|name|] == name;
  }

  // ----- the decoder in place

  class ServerSentEventDecoder {
    const stream: Stream
    var poisoned: bool
    var afterReturn: bool
    var data: seq<byte>
    var name: seq<byte>
    var eventBytes: nat
    var identifier: Option<seq<byte>>
    var pending: seq<byte>
    var sawField: bool
    var delivered: seq<Item>

    ghost function Open(): Decoder reads this {
      Decoder(afterReturn, pending, Event(data, name, identifier, eventBytes, sawField))
    }

    /** A poisoned decoder is closed whatever it still holds. */
    ghost function View(): Reading reads this {
      Reading(if poisoned then None else Some(Open()), delivered)
    }

    constructor (stream: Stream)
      ensures this.stream == stream && View() == START
    {
      this.stream := stream;
      poisoned, afterReturn, data, name, eventBytes, identifier, pending, sawField, delivered :=
        false, false, [], [], 0, None, [], false, [];
    }

    /** The flag for a carriage return is no part of an event and stays. */
    method Discard()
      modifies this
      ensures Open() == Decoder(old(afterReturn), [], NOTHING) && poisoned == old(poisoned)
                && delivered == old(delivered)
    {
      data, eventBytes, name, identifier, pending, sawField := [], 0, [], None, [], false;
    }

    method TakeField(line: seq<byte>) returns (ok: bool)
      modifies this
      ensures ok == AbsorbField(stream, old(Open()).event, line).Some?
      ensures ok ==> Open() == old(Open()).(event := AbsorbField(stream, old(Open()).event, line).value)
      ensures poisoned == old(poisoned) && delivered == old(delivered)
    {
      var colon := FirstColon(line);
      var field, value := line[..colon], FieldValue(line);
      ok := true;
      if field == DATA {
        data := data + value + [LF];
      } else if field == EVENT {
        name := value;
      } else if field == IDENTIFIER {
        if |value| > stream.identifierBytes { return false; }
        identifier := Some(value);
      } else {
        return;
      }
      sawField := true;
    }

    method EndEvent() returns (ok: bool, item: Option<Item>)
      requires pending == []
      modifies this
      ensures ok == Dispatch(stream, old(Open()).event).Some?
      ensures ok ==>
                item == Dispatch(stream, old(Open()).event).value && Open() == Decoder(old(afterReturn), [], NOTHING)
      ensures poisoned == old(poisoned) && delivered == old(delivered)
    {
      hide Requested, Correlated;
      ok, item := true, None;
      if !sawField {
        Discard();
        return;
      }
      var payload := if data != [] && data[|data| - 1] == LF then data[..|data| - 1] else data;
      var called, cursor := name, identifier;
      Discard();
      var document := stream.parse(payload);
      if document.None? { return false, None; }
      if !Requested(stream, document.value) || !Correlated(stream, document.value) { return false, None; }
      if cursor.Some? && |cursor.value| > stream.identifierBytes { return false, None; }
      item := Some(Delivered(document.value, called, cursor));
    }

    method EndLine() returns (ok: bool, item: Option<Item>)
      modifies this
      ensures ok == Line(stream, old(Open())).Some?
      ensures ok ==> Line(stream, old(Open())).value == (Open(), item)
      ensures poisoned == old(poisoned) && delivered == old(delivered)
    {
      hide Dispatch, AbsorbField;
      var line := pending;
      pending := [];
      ok, item := true, None;
      if !stream.utf8(line) { return false, None; }
      if line == [] {
        ok, item := EndEvent();
      } else if line[0] == COLON {
        item := Some(Heartbeat);
      } else {
        if eventBytes + |line| > stream.eventBytes { return false, None; }
        eventBytes := eventBytes + |line|;
        ok := TakeField(line);
      }
    }

    method TakeOctet(octet: byte) returns (ok: bool, item: Option<Item>)
      modifies this
      ensures ok == Absorb(stream, old(Open()), octet).Some?
      ensures ok ==> Absorb(stream, old(Open()), octet).value == (Open(), item)
      ensures poisoned == old(poisoned) && delivered == old(delivered)
    {
      hide CompleteLine;
      ok, item := true, None;
      if octet == CR {
        afterReturn := true;
        ok, item := EndLine();
      } else if octet == LF {
        if afterReturn {
          afterReturn := false;
        } else {
          ok, item := EndLine();
        }
      } else {
        afterReturn := false;
        if |pending| + 1 > stream.lineBytes { return false, None; }
        pending := pending + [octet];
      }
    }

    /** Each item goes out as soon as it is complete; any refusal, the consumer's too, closes for good. */
    method PushEach(chunk: seq<byte>) returns (ok: bool)
      modifies this
      ensures View() == Feed(stream, old(View()), chunk)
      ensures ok == !poisoned
    {
      hide Absorb;
      if poisoned {
        FeedClosed(stream, delivered, chunk);
        return false;
      }
      poisoned := true;
      for i := 0 to |chunk|
        invariant poisoned
        invariant Feed(stream, Reading(Some(Open()), delivered), chunk[i..]) == Feed(stream, old(View()), chunk)
      {
        ghost var before := Reading(Some(Open()), delivered);
        assert chunk[i..][0] == chunk[i] && chunk[i..][1..] == chunk[i + 1..];
        var taken, item := TakeOctet(chunk[i]);
        if !taken {
          Discard();
          FeedClosed(stream, delivered, chunk[i + 1..]);
          return false;
        }
        if item.Some? {
          if !stream.consume(delivered + [item.value]) {
            Discard();
            FeedClosed(stream, delivered, chunk[i + 1..]);
            return false;
          }
          delivered := delivered + [item.value];
        }
      }
      poisoned, ok := false, true;
    }
  }
}
