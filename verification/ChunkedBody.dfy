/** Reading a framed HTTP/1.1 body: fixed length, or chunks up to an empty one (section 7.1 of RFC 9112). */
module ChunkedBody {
  import opened Bytes
  import opened Ascii
  import opened ChunkSize

  const CRLF: seq<byte> := [13, 10]

  // ----- lines

  function FirstFeed(s: seq<byte>): (n: nat)
    ensures n <= |s| && (forall i :: 0 <= i < n ==> s[i] != LF) && (n < |s| ==> s[n] == LF)
  {
    if s == [] || s[0] == LF then 0 else 1 + FirstFeed(s[1..])
  }

  /**
   * The first line and what is behind it: its first line feed must be part of a CRLF, and all of it within
   * the bound.
   */
  function FirstLine(input: seq<byte>, bound: nat): Option<(seq<byte>, seq<byte>)> {
    var n := FirstFeed(input);
    if n == |input| || n == 0 || input[n - 1] != CR || n + 1 > bound then None
    else Some((input[..n - 1], input[n + 1..]))
  }

  lemma {:induction false} FirstFeedAt(s: seq<byte>, n: nat)
    requires n < |s| && s[n] == LF && forall i :: 0 <= i < n ==> s[i] != LF
    ensures FirstFeed(s) == n
    decreases n
  {
    if n > 0 { FirstFeedAt(s[1..], n - 1); }
  }

  lemma LineOf(line: seq<byte>, rest: seq<byte>, bound: nat)
    requires LF !in line
    ensures FirstLine(line + CRLF + rest, bound) == if |line| + 2 <= bound then Some((line, rest)) else None
  {
    var input := line + CRLF + rest;
    FirstFeedAt(input, |line| + 1);
    assert input[..|line|] == line && input[|line| + 2..] == rest;
  }

  lemma LineFound(input: seq<byte>, bound: nat)
    requires FirstLine(input, bound).Some?
    ensures var (line, rest) := FirstLine(input, bound).value;
            input == line + CRLF + rest && LF !in line && |line| + 2 <= bound
  {
    var n := FirstFeed(input);
    assert input == input[..n - 1] + [input[n - 1], input[n]] + input[n + 1..];
  }

  // ----- bodies

  /** One line that must be empty. */
  function EmptyLine(input: seq<byte>, bound: nat): Option<seq<byte>> {
    match FirstLine(input, bound) case None => None case Some((line, rest)) => if line == [] then Some(rest) else None
  }

  /** A chunk behind its size line: its data and what follows the CRLF that closes it. */
  function Part(input: seq<byte>, body: seq<byte>, length: nat, limit: nat, bound: nat)
    : Option<(seq<byte>, seq<byte>)>
  {
    if |body| + length > limit || length > |input| then None
    else match EmptyLine(input[length..], bound)
      case None => None
      case Some(rest) => Some((body + input[..length], rest))
  }

  /** The body the chunks add up to, and what is behind the last one. */
  function Chunks(input: seq<byte>, body: seq<byte>, limit: nat, bound: nat): Option<(seq<byte>, seq<byte>)>
    decreases |input|
  {
    match FirstLine(input, bound)
    case None => None
    case Some((line, rest)) =>
      match SizeOf(line)
      case None => None
      case Some(length) =>
        if length == 0 then (match EmptyLine(rest, bound) case None => None case Some(end) => Some((body, end)))
        else match Part(rest, body, length, limit, bound)
          case None => None
          case Some((longer, next)) => if |next| < |input| then Chunks(next, longer, limit, bound) else None
  }

  datatype Framing = Fixed(length: nat) | Chunked

  /** The whole transport is the body and its framing, nothing more. */
  function Body(input: seq<byte>, framing: Framing, limit: nat, bound: nat): Option<seq<byte>> {
    match framing
    case Fixed(length) => if length > limit || |input| != length then None else Some(input)
    case Chunked => match Chunks(input, [], limit, bound)
      case None => None
      case Some((body, end)) => if end == [] then Some(body) else None
  }

  /** A body of a fixed length is the whole transport, no more and no less. */
  lemma FixedIff(input: seq<byte>, length: nat, limit: nat, bound: nat, body: seq<byte>)
    ensures Body(input, Fixed(length), limit, bound) == Some(body) <==>
              input == body && |body| == length && length <= limit
  {
  }

  // ----- what a chunked body looks like on the wire

  /** A size line, extensions and all, and the data it announces. */
  datatype Chunk = Chunk(line: seq<byte>, data: seq<byte>)

  predicate Announces(c: Chunk, bound: nat) {
    |c.line| + 2 <= bound && SizeOf(c.line) == Some(|c.data|)
  }

  predicate WellCut(chunks: seq<Chunk>, bound: nat) {
    forall i :: 0 <= i < |chunks| ==> chunks[i].data != [] && Announces(chunks[i], bound)
  }

  function Framed(c: Chunk): seq<byte> { c.line + CRLF + c.data + CRLF }

  function Encoded(chunks: seq<Chunk>, last: seq<byte>): seq<byte> {
    if chunks == [] then Framed(Chunk(last, [])) else Framed(chunks[0]) + Encoded(chunks[1..], last)
  }

  function Joined(chunks: seq<Chunk>): seq<byte> {
    if chunks == [] then [] else chunks[0].data + Joined(chunks[1..])
  }

  lemma EmptyLineOf(rest: seq<byte>, bound: nat)
    requires 2 <= bound
    ensures EmptyLine(CRLF + rest, bound) == Some(rest)
  {
    LineOf([], rest, bound);
    assert [] + CRLF + rest == CRLF + rest;
  }

  lemma PartOf(data: seq<byte>, rest: seq<byte>, body: seq<byte>, limit: nat, bound: nat)
    requires 2 <= bound && |body| + |data| <= limit
    ensures Part(data + CRLF + rest, body, |data|, limit, bound) == Some((body + data, rest))
  {
    var input := data + CRLF + rest;
    EmptyLineOf(rest, bound);
    assert input[|data|..] == CRLF + rest && input[..|data|] == data;
  }

  /** Any cutting into non-empty chunks, with any size lines that announce them, is read back whole. */
  lemma {:induction false} ChunksOf(chunks: seq<Chunk>, last: seq<byte>, rest: seq<byte>, body: seq<byte>, limit: nat,
                                    bound: nat)
    requires WellCut(chunks, bound) && Announces(Chunk(last, []), bound) && |body| + |Joined(chunks)| <= limit
    ensures Chunks(Encoded(chunks, last) + rest, body, limit, bound) == Some((body + Joined(chunks), rest))
    decreases |chunks|
  {
    hide SizeOf, FirstLine, Part, EmptyLine;
    var input := Encoded(chunks, last) + rest;
    if chunks == [] {
      SizeLineClean(last);
      assert input == last + CRLF + (CRLF + rest);
      LineOf(last, CRLF + rest, bound);
      EmptyLineOf(rest, bound);
      assert body + [] == body;
    } else {
      var c, next := chunks[0], Encoded(chunks[1..], last) + rest;
      SizeLineClean(c.line);
      assert input == c.line + CRLF + (c.data + CRLF + next);
      LineOf(c.line, c.data + CRLF + next, bound);
      PartOf(c.data, next, body, limit, bound);
      ChunksOf(chunks[1..], last, rest, body + c.data, limit, bound);
      assert body + c.data + Joined(chunks[1..]) == body + Joined(chunks);
    }
  }

  /** Nothing else is read: every accepted input is such a cutting. */
  lemma {:induction false} ChunksFound(input: seq<byte>, body: seq<byte>, limit: nat, bound: nat)
    returns (chunks: seq<Chunk>, last: seq<byte>)
    requires Chunks(input, body, limit, bound).Some? && |body| <= limit
    ensures WellCut(chunks, bound) && Announces(Chunk(last, []), bound) && |body| + |Joined(chunks)| <= limit
    ensures var (longer, rest) := Chunks(input, body, limit, bound).value;
            longer == body + Joined(chunks) && input == Encoded(chunks, last) + rest
    decreases |input|
  {
    hide SizeOf, FirstLine;
    var (line, behind) := FirstLine(input, bound).value;
    LineFound(input, bound);
    var length := SizeOf(line).value;
    if length == 0 {
      chunks, last := [], line;
      LineFound(behind, bound);
      assert input == line + CRLF + [] + CRLF + EmptyLine(behind, bound).value;
      assert body + [] == body;
    } else {
      var (longer, next) := Part(behind, body, length, limit, bound).value;
      LineFound(behind[length..], bound);
      var data := behind[..length];
      assert behind == data + behind[length..];
      var others;
      others, last := ChunksFound(next, longer, limit, bound);
      chunks := [Chunk(line, data)] + others;
      assert chunks[1..] == others;
      var rest := Chunks(input, body, limit, bound).value.1;
      assert behind[length..] == CRLF + next by { assert [] + CRLF + next == CRLF + next; }
      assert input == line + CRLF + data + CRLF + next;
      assert Encoded(chunks, last) + rest == Framed(chunks[0]) + (Encoded(others, last) + rest);
    }
  }

  /** A body is read from a chunked transport exactly when the transport is some cutting of it, within the limit. */
  lemma ChunkedIff(input: seq<byte>, body: seq<byte>, limit: nat, bound: nat)
    ensures Body(input, Chunked, limit, bound) == Some(body) <==>
              && |body| <= limit
              && exists chunks, last ::
                   && WellCut(chunks, bound) && Announces(Chunk(last, []), bound)
                   && Joined(chunks) == body && input == Encoded(chunks, last)
  {
    hide WellCut, Announces;
    if Body(input, Chunked, limit, bound) == Some(body) {
      var chunks, last := ChunksFound(input, [], limit, bound);
      assert [] + Joined(chunks) == Joined(chunks);
      assert Encoded(chunks, last) + [] == Encoded(chunks, last);
    }
    if chunks, last :|
      |body| <= limit && WellCut(chunks, bound) && Announces(Chunk(last, []), bound) && Joined(chunks) == body &&
      input == Encoded(chunks, last)
    {
      ChunksOf(chunks, last, [], [], limit, bound);
      assert Encoded(chunks, last) + [] == input && [] + Joined(chunks) == body;
    }
  }

  // ----- the reader

  /** A transport that hands out what it holds in pieces of its own choosing. */
  class Transport {
    var unread: seq<byte>

    constructor (octets: seq<byte>)
      ensures unread == octets
    {
      unread := octets;
    }

    /** At most n octets; none only at the end of the transport. */
    method Read(n: nat) returns (octets: seq<byte>)
      requires n > 0
      modifies this
      ensures octets + unread == old(unread) && |octets| <= n
      ensures octets == [] <==> old(unread) == []
    {
      var count := if |unread| < n then |unread| else n;
      octets, unread := unread[..count], unread[count..];
    }

    method ReadOctet() returns (octet: Option<byte>)
      modifies this
      ensures octet == if old(unread) == [] then None else Some(old(unread)[0])
      ensures octet.Some? ==> unread == old(unread)[1..]
    {
      var octets := Read(1);
      if octets == [] {
        return None;
      }
      octet := Some(octets[0]);
    }
  }

  predicate Feedless(s: seq<byte>, n: nat) {
    n <= |s| && forall i :: 0 <= i < n ==> s[i] != LF
  }

  /** Read up to the bound, or to the end, without a line feed: no line. */
  lemma NoLine(input: seq<byte>, n: nat, bound: nat)
    requires Feedless(input, n) && (bound <= n || n == |input|)
    ensures FirstLine(input, bound).None?
  {
  }

  /** The first line feed decides. */
  lemma LineAt(input: seq<byte>, n: nat, bound: nat)
    requires n < |input| && Feedless(input, n) && input[n] == LF && n < bound
    ensures FirstLine(input, bound) == if n > 0 && input[n - 1] == CR then Some((input[..n - 1], input[n + 1..]))
              else None
  {
    FirstFeedAt(input, n);
  }

  method ReadChunkLine(stream: Transport, bound: nat) returns (r: Option<seq<byte>>)
    modifies stream
    ensures r == match FirstLine(old(stream.unread), bound) case None => None case Some((line, _)) => Some(line)
    ensures r.Some? ==> stream.unread == FirstLine(old(stream.unread), bound).value.1
  {
    hide FirstLine;
    ghost var input := stream.unread;
    var line := [];
    while true
      invariant |line| <= bound && Feedless(input, |line|) && line == input[..|line|]
      invariant stream.unread == input[|line|..]
      decreases |stream.unread|
    {
      if |line| >= bound {
        NoLine(input, |line|, bound);
        return None;
      }
      var octet := stream.ReadOctet();
      if octet.None? {
        NoLine(input, |line|, bound);
        return None;
      }
      line := line + [octet.value];
      if octet.value == LF {
        LineAt(input, |line| - 1, bound);
        if |line| >= 2 && line[|line| - 2] == CR {
          assert line[..|line| - 2] == input[..|line| - 2];
          return Some(line[..|line| - 2]);
        }
        return None;
      }
    }
  }

  method ReadBodyPart(stream: Transport, body: seq<byte>, length: nat, limit: nat) returns (longer: Option<seq<byte>>)
    modifies stream
    ensures longer == if |body| + length > limit || length > |old(stream.unread)| then None
                      else Some(body + old(stream.unread)[..length])
    ensures longer.Some? ==> stream.unread == old(stream.unread)[length..]
  {
    if |body| + length > limit {
      return None;
    }
    ghost var input := stream.unread;
    var collected := body;
    while |collected| < |body| + length
      invariant |body| <= |collected| <= |body| + length
      invariant body + input == collected + stream.unread && |collected| - |body| <= |input|
      decreases |body| + length - |collected|
    {
      var octets := stream.Read(|body| + length - |collected|);
      if octets == [] {
        assert |body| + |input| == |collected|;
        return None;
      }
      collected := collected + octets;
    }
    assert collected == (body + input)[..|body| + length] && stream.unread == (body + input)[|body| + length..];
    assert collected == body + input[..length] && stream.unread == input[length..];
    longer := Some(collected);
  }

  method ReadEmptyLine(stream: Transport, bound: nat) returns (ok: bool)
    modifies stream
    ensures ok == EmptyLine(old(stream.unread), bound).Some?
    ensures ok ==> stream.unread == EmptyLine(old(stream.unread), bound).value
  {
    var line := ReadChunkLine(stream, bound);
    ok := line == Some([]);
  }

  method ReadChunks(stream: Transport, limit: nat, bound: nat) returns (r: Option<seq<byte>>)
    modifies stream
    ensures r == match Chunks(old(stream.unread), [], limit, bound) case None => None case Some((body, _)) => Some(body)
    ensures r.Some? ==> stream.unread == Chunks(old(stream.unread), [], limit, bound).value.1
  {
    var body := [];
    while true
      invariant Chunks(stream.unread, body, limit, bound) == Chunks(old(stream.unread), [], limit, bound)
      decreases |stream.unread|
    {
      ghost var input := stream.unread;
      var line := ReadChunkLine(stream, bound);
      if line.None? { return None; }
      LineFound(input, bound);
      ghost var behind := stream.unread;
      var length := DecodeChunkSize(line.value);
      if length.None? { return None; }
      if length.value == 0 {
        var ok := ReadEmptyLine(stream, bound);
        if !ok { return None; }
        return Some(body);
      }
      var longer := ReadBodyPart(stream, body, length.value, limit);
      if longer.None? { return None; }
      var ok := ReadEmptyLine(stream, bound);
      if !ok { return None; }
      PartBehind(behind, body, length.value, limit, bound);
      body := longer.value;
    }
  }

  lemma PartBehind(input: seq<byte>, body: seq<byte>, length: nat, limit: nat, bound: nat)
    requires Part(input, body, length, limit, bound).Some?
    ensures |Part(input, body, length, limit, bound).value.1| < |input|
  {
    LineFound(input[length..], bound);
  }

  /** Behind the body the transport must end. */
  method ReadFramedBody(stream: Transport, framing: Framing, limit: nat, bound: nat) returns (body: Option<seq<byte>>)
    modifies stream
    ensures body == Body(old(stream.unread), framing, limit, bound)
  {
    ghost var input := stream.unread;
    match framing {
      case Fixed(length) => body := ReadBodyPart(stream, [], length, limit);
      case Chunked => body := ReadChunks(stream, limit, bound);
    }
    if body.Some? {
      assert framing.Fixed? ==> [] + input[..framing.length] == input[..framing.length];
      var extra := stream.Read(1);
      if extra != [] {
        return None;
      }
      assert framing.Fixed? ==> input[..framing.length] == input;
    }
  }
}
