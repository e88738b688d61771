# Verified model of the agent connection's wire stack

`slingshot-agent-connection` speaks HTTP/2, HPACK and HTTP/1.1 with hand-written incremental decoders,
reads a server-sent event stream on top of them, and folds events and snapshots into what it knows about
remote jobs.  This project models that stack in Dafny and proves that each octet-at-a-time machine does
what a simple reading of the whole input does.

How the model is organised:

- **Machines and meanings.**  Every incremental reader is a pure step function with a refusal that
  nothing leaves; beside it stands an independent meaning of whole inputs (a grammar, a syntax tree, a
  positional order rule, a ledger, a history), and a lemma that connects the two for every input.
- **Objects.**  What the source updates in place is a class here: integers, Huffman strings, the header
  table, literals, the block decoder, the frame reader, send and receive windows, the head reader, the
  finite response, the event decoder, field accounting.  Each method is proved against the step function.
- **HPACK** (`HpackInteger`, `HuffmanTree`, `HpackCodes`, `HpackHuffman`, `HuffmanTrie`,
  `HpackHuffmanString`, `HpackTable`, `HpackString`, `HpackSink`, `HpackBlock`, `HpackRefinement`,
  `HpackRuns`, `HpackResponseBlock`, `HpackStatic`, `HpackRepresentations`, `HpackLimit`).  A sink
  is everything it has been told and a policy on such records; any deterministic gate is one, and `Http2Headers` is the concrete one.
- **HTTP/2** (`Http2Frames`, `Http2FrameReader`, `Http2Request`, `Http2EndToEnd`, `Http2Flow`,
  `Http2Headers`, `Http2Response`, `Http2FiniteResponse`, `Http2Exchange`, `Http2Driver`,
  `Http2DriverReader`, `Http2DriverControls`, `Http2DriverEnds`, `Http2DriverProgress`, `Http2Grammar`).  The
  driver is a transition relation over reader, channel, writer and frames on the wire; a sequence of labels is
  an interleaving.  `Http2Exchange` is the reader alone, from octets to response.
- **HTTP/1.1** (`Ascii`, `ChunkSize`, `ChunkedBody`, `HeadGates`, `HeadGrammar`), **events** (`EventStream`) and
  **folds** (`JobFold`, `CursorOrder`, `SubscriptionFold`).
- **Grammars beside the readers.**  `HpackRepresentations`, `Http2Grammar`, `HeadGrammar` and the spellings in
  `ChunkSize`, `EventStream` and `CursorOrder` say from the writing side what octets mean, in the numbers and
  names of the standards, so that the functions the machines share are themselves pinned down.

Parameters: installed numeric limits; the Huffman tree and codebook of the block decoder (instantiated
with the published code by `InstalledFragments` and `HpackHuffmanString.RoundTrip`); the header library's
notion of a name and a value; UTF-8 validity; the shared finite-head and finite-body policies; JSON
decoding, retained expectations and installed contracts of the event stream; provenance matching.

Where code and comment differ, the code is followed.  Two places worth knowing: a literal that is refused
at its first length octet always sets the block's encoded-limit flag, also when the prefix itself already
passes the remaining budget; and forgetting a partial event keeps the memory of a carriage return just
seen, so the line feed of a CRLF is still swallowed behind a blank line.

## Model

| member | source | states |
|---|---|---|
| `HpackInteger.AcceptedIff` | crates/slingshot-agent-connection/src/selected_author_hpack_integer.rs:29-85 | a prefix integer of any width 1 to 8 completes as v exactly when the octets denote v (prefix, or all-ones prefix plus the base-128 sum of a terminated tail of at most ten octets) and v is within the maximum; both directions, so a refused integer yields nothing |
| `HpackInteger.FeedMeaning` | crates/slingshot-agent-connection/src/selected_author_hpack_integer.rs:59-80 | the same from every partial integer: termination, room for the remaining shifts below 64, and the bound |
| `HpackInteger.RoundTrip` | crates/slingshot-agent-connection/src/selected_author_hpack_integer.rs:92-105 | decoding the encoding of any 64-bit value within the maximum yields that value, whatever instruction bits share its first octet |
| `HpackInteger.NothingEarly` | crates/slingshot-agent-connection/src/selected_author_hpack_integer.rs:59-80 | no proper prefix of octets that denote a value is already complete or refused |
| `HpackInteger.TenDigits` | crates/slingshot-agent-connection/src/selected_author_hpack_integer.rs:92-105 | every 64-bit value has at most ten continuation octets |
| `HpackInteger.FeedAppend` | crates/slingshot-agent-connection/src/selected_author_hpack_integer.rs:59-80 | feeding in pieces is feeding at once |
| `HpackInteger.ReadIsParse` | crates/slingshot-agent-connection/src/selected_author_hpack_integer.rs:29-80 | reading incrementally from the front of a longer input agrees with the unbounded grammar of section 5.1 of RFC 7541, cut off at the maximum |
| `HpackInteger.PrefixedInteger.constructor` | crates/slingshot-agent-connection/src/selected_author_hpack_integer.rs:29-46 | starts in the state the first octet determines, refused above the maximum or for a prefix that is not 1 to 8 bits wide |
| `HpackInteger.PrefixedInteger.Push` | crates/slingshot-agent-connection/src/selected_author_hpack_integer.rs:59-80 | one octet moves the object exactly as the pure reader; extra octets after completion are refused |
| `HpackCodes.WholeTree` | crates/slingshot-agent-connection/src/selected_author_hpack_codes.rs:4-262 | the 257 published codes are exactly the leaves of one full binary tree of depth at most 30 |
| `HuffmanTree.LeavesAreCodes` | crates/slingshot-agent-connection/src/selected_author_hpack_codes.rs:4-262 | in a tree drawn from a codebook a path ends in a symbol exactly when it spells that symbol's code: the code is prefix-free and complete |
| `HpackHuffman.AcceptedIff` | crates/slingshot-agent-connection/src/selected_author_hpack_huffman.rs:82-122 | octets decode to a text exactly when their bits are the concatenated codes of that text followed by zero to seven one-bits; the end-of-string symbol is never emitted |
| `HpackHuffman.FeedSound` | crates/slingshot-agent-connection/src/selected_author_hpack_huffman.rs:82-109 | whatever has been read is codes of what was emitted plus a proper prefix of a code |
| `HpackHuffman.FeedComplete` | crates/slingshot-agent-connection/src/selected_author_hpack_huffman.rs:82-109 | the codes of any text, read from the root, emit that text and return to the root |
| `HuffmanTrie.Build` | crates/slingshot-agent-connection/src/selected_author_hpack_huffman.rs:18-44 | the nested construction loops fill an array of exactly 2n-1 nodes (513 for 257 codes) that spells the whole tree, never run past it, and never overwrite a symbol |
| `HuffmanTrie.Enter` | crates/slingshot-agent-connection/src/selected_author_hpack_huffman.rs:22-42 | entering one code adds exactly the missing nodes on its path and marks its end |
| `HuffmanTrie.PathCount` | crates/slingshot-agent-connection/src/selected_author_hpack_huffman.rs:18-44 | a full tree has 2n-1 nodes for n leaves, which bounds the array |
| `HpackHuffmanString.HuffmanString.Push` | crates/slingshot-agent-connection/src/selected_author_hpack_huffman.rs:82-109 | one octet walks the array as the pure decoder walks the tree; the missing-child refusal cannot happen, and a sink refusal stops at that symbol |
| `HpackHuffmanString.HuffmanString.Finish` | crates/slingshot-agent-connection/src/selected_author_hpack_huffman.rs:116-122 | accepts exactly zero to seven pending one-bits |
| `HpackHuffmanString.Encode` | crates/slingshot-agent-connection/src/selected_author_hpack_huffman.rs:149-169 | the bit packer writes the codes of the text and pads with fewer than eight one-bits |
| `HpackHuffmanString.DecodeBuilt` | crates/slingshot-agent-connection/src/selected_author_hpack_huffman.rs:18-122 | the array built from a codebook, driven octet by octet over a whole string and finished, decodes exactly what the meaning of the bits says, for every octet string |
| `HpackHuffmanString.RoundTrip` | crates/slingshot-agent-connection/src/selected_author_hpack_huffman.rs:149-196 | encoding any octet string with the published code and decoding it through the array built from that code returns it |
| `HpackCodes.PublishedIsCanonical` | crates/slingshot-agent-connection/src/selected_author_hpack_codes.rs:4-262 | among published codes of one length the larger symbol has the larger code, so no two of them can be exchanged |
| `HuffmanTree.CodesAscend` | crates/slingshot-agent-connection/src/selected_author_hpack_codes.rs:4-262 | in any canonical tree the leaves of one depth carry their symbols in ascending order from left to right |
| `HpackTable.RunValid` | crates/slingshot-agent-connection/src/selected_author_hpack_table.rs:152-196 | after any inserts, resizes and clears the charge is the sum of the entry sizes and at most the capacity |
| `HpackTable.KeptIsLongest` | crates/slingshot-agent-connection/src/selected_author_hpack_table.rs:190-196 | an eviction keeps the longest newest-first prefix that fits, and no longer one would |
| `HpackTable.RunKeepsNewest` | crates/slingshot-agent-connection/src/selected_author_hpack_table.rs:164-196 | the entries are always a newest-first prefix of everything inserted: the most recent inserts, none missing and none out of order |
| `HpackTable.ResolvableIndexes` | crates/slingshot-agent-connection/src/selected_author_hpack_table.rs:137-149 | in any reachable table an index that resolves is between 1 and 189, the block decoder's bound |
| `HpackTable.HeaderTable.Lookup` | crates/slingshot-agent-connection/src/selected_author_hpack_table.rs:137-149 | resolves static indexes first, then dynamic ones newest first, and refuses zero and anything past the end |
| `HpackTable.HeaderTable.Resize` | crates/slingshot-agent-connection/src/selected_author_hpack_table.rs:152-161 | refuses a capacity above 4096 and changes nothing, else evicts to the new capacity |
| `HpackTable.HeaderTable.Insert` | crates/slingshot-agent-connection/src/selected_author_hpack_table.rs:164-184 | makes room first; an entry larger than the capacity leaves the table empty |
| `HpackTable.HeaderTable.Clear` | crates/slingshot-agent-connection/src/selected_author_hpack_table.rs:186-188 | empties the table and keeps its capacity |
| `HpackTable.HeaderTable.EvictTo` | crates/slingshot-agent-connection/src/selected_author_hpack_table.rs:190-196 | the loop pops only while there is an entry to pop and ends with the longest prefix that fits |
| `HpackTable.InsertedKeeps` | crates/slingshot-agent-connection/src/selected_author_hpack_table.rs:164-184 | for every n: the new field and the n newest entries are what the table starts with after an insert if and only if together they fit the capacity |
| `HpackTable.ResizedKeeps` | crates/slingshot-agent-connection/src/selected_author_hpack_table.rs:152-161 | a capacity is taken exactly up to 4096, and for every n the n newest entries survive it if and only if they fit |
| `HpackTable.EnduresIff` | crates/slingshot-agent-connection/src/selected_author_hpack_table.rs:152-196 | from any table and over every run of inserts, resizes and clears: its n newest entries are still there, under everything inserted since, if and only if every step on the way had room for them and all newer ones together |
| `HpackTable.FieldFits` | crates/slingshot-agent-connection/src/selected_author_hpack_table.rs:164-184 | a field is kept exactly when its octets and 32 more fit the capacity |
| `HpackTable.IndexCountsBack` | crates/slingshot-agent-connection/src/selected_author_hpack_table.rs:137-149 | behind the 61 static entries, index 62 + k is the k-th last field inserted, and resolves exactly while that is still held |
| `HpackStatic.StaticOrder` | crates/slingshot-agent-connection/src/selected_author_hpack_table.rs:12-75 | each static entry stands before the next by name and then by value, the one published exception apart, so no two neighbours can be exchanged |
| `HpackString.ReadIsParse` | crates/slingshot-agent-connection/src/selected_author_hpack_string.rs:30-98 | a string read octet by octet is the string the whole-input grammar finds: length integer, then that many raw or Huffman octets |
| `HpackString.ReadHuffman` | crates/slingshot-agent-connection/src/selected_author_hpack_string.rs:58-98 | incremental Huffman payloads decode as the whole payload does, padding included |
| `HpackString.LiteralString.Push` | crates/slingshot-agent-connection/src/selected_author_hpack_string.rs:58-88 | one octet moves the length reader or the payload exactly as the pure step, in place |
| `HpackBlock.CaptureRefines` | crates/slingshot-agent-connection/src/selected_author_hpack_block.rs:307-319 | although an indexed field is given up once it cannot fit 4096 octets, the table afterwards equals the table from inserting the complete name and value, at every capacity |
| `HpackBlock.CaptureMeaning` | crates/slingshot-agent-connection/src/selected_author_hpack_block.rs:348-366 | the bounded capture holds all of the text or has given up, exactly at the bound |
| `HpackRefinement.Refines` | crates/slingshot-agent-connection/src/selected_author_hpack_block.rs:161-319 | from any block between representations and for every octet string within the budget, finishing the octet-at-a-time machine yields the same events, table and refusal as the whole-block decoder of section 6 of RFC 7541 |
| `HpackRefinement.RunAppend` | crates/slingshot-agent-connection/src/selected_author_hpack_block.rs:139-159 | pushing in two fragments is pushing their concatenation |
| `HpackRefinement.RunText` | crates/slingshot-agent-connection/src/selected_author_hpack_block.rs:223-256 | a string inside a block delivers all of its text at once, then what follows it, however its octets arrive |
| `HpackRuns.AnyFragments` | crates/slingshot-agent-connection/src/selected_author_hpack_block.rs:139-328 | for every way to cut a header block into push calls: fields, table and outcome are those of the whole-block decoder, and longer blocks than the encoded maximum are refused |
| `HpackRuns.InstalledFragments` | crates/slingshot-agent-connection/src/selected_author_hpack_block.rs:105-110 | the same for the published Huffman code and static table |
| `HpackRuns.RunCharged` | crates/slingshot-agent-connection/src/selected_author_hpack_block.rs:145-154 | every accepted octet is charged exactly once and the charge never passes the maximum, so the remaining budget never underflows |
| `HpackRuns.ReachedIsFunded` | crates/slingshot-agent-connection/src/selected_author_hpack_block.rs:257-269 | in every reachable block a literal whose declared length has passed is never later refused for the encoded budget |
| `HpackRuns.NeverRefusedForBudget` | crates/slingshot-agent-connection/src/selected_author_hpack_block.rs:257-269 | the same from any funded block, for any remaining payload octets |
| `HpackResponseBlock.ResponseBlock.Push` | crates/slingshot-agent-connection/src/selected_author_hpack_block.rs:139-159 | the in-place decoder, with its nested readers, live table and capture, runs exactly the block machine |
| `HpackResponseBlock.ResponseBlock.Dispatch` | crates/slingshot-agent-connection/src/selected_author_hpack_block.rs:161-255 | one octet in each of the six states, with the state already taken out |
| `HpackResponseBlock.ResponseBlock.OnInteger` | crates/slingshot-agent-connection/src/selected_author_hpack_block.rs:271-305 | what a completed index or size does: resize, indexed field, or the beginning of a literal |
| `HpackResponseBlock.ResponseBlock.EndField` | crates/slingshot-agent-connection/src/selected_author_hpack_block.rs:307-319 | commits a captured field, or clears the table for one that outgrew it |
| `HpackResponseBlock.ResponseBlock.Emit` | crates/slingshot-agent-connection/src/selected_author_hpack_block.rs:348-366 | each octet goes to the sink before it is captured, and a sink refusal stops there |
| `HpackResponseBlock.ResponseBlock.Finish` | crates/slingshot-agent-connection/src/selected_author_hpack_block.rs:323-328 | only a block between representations finishes, and only where the sink itself may end |
| `HpackResponseBlock.ResponseBlock.FinishWithNextReader` | crates/slingshot-agent-connection/src/selected_author_hpack_block.rs:333-345 | under the same two conditions the next section starts fresh with the same table |
| `HpackRepresentations.DecodeCompressed` | crates/slingshot-agent-connection/src/selected_author_hpack_block.rs:161-319 | whatever a compressor writes with the published rules, indexes static and dynamic, literals of all three kinds, raw or Huffman strings and leading size changes, decodes to exactly the fields it stands for and leaves the compressor's own table |
| `HpackRepresentations.ParseWritten` | crates/slingshot-agent-connection/src/selected_author_hpack_block.rs:161-256 | each representation a compressor can write is read back as itself, whatever follows it |
| `HpackRepresentations.SentTwice` | crates/slingshot-agent-connection/src/selected_author_hpack_block.rs:161-319 | a field sent once with indexing and then by the single index 62 arrives twice, if the table can hold it |
| `HpackRepresentations.StatusInOneOctet` | crates/slingshot-agent-connection/src/selected_author_hpack_block.rs:271-305 | the block of the one octet 0x88 is the field :status 200 |
| `HpackRepresentations.LateResize` | crates/slingshot-agent-connection/src/selected_author_hpack_block.rs:161-222 | a size change behind any field refuses the block |
| `HpackRepresentations.DanglingIndex` | crates/slingshot-agent-connection/src/selected_author_hpack_block.rs:271-305 | an index that resolves to nothing refuses the block, whatever follows |
| `HpackRepresentations.RequestFieldIs` | crates/slingshot-agent-connection/src/selected_author_http2_request.rs:111-117 | requests are written with never-indexed literals and raw strings |
| `HpackLimit.LimitIff` | crates/slingshot-agent-connection/src/selected_author_hpack_block.rs:145-269 | for every block, maximum and table: the encoded-limit flag is raised with a refusal if and only if the same octets would have ended otherwise with no maximum in their way |
| `HpackLimit.RunSame` | crates/slingshot-agent-connection/src/selected_author_hpack_block.rs:145-269 | run side by side under two maxima, the smaller one is the reason for the refusal or makes no difference at all: same fields, same table, same refusal |
| `Http2Frames.AdmittedIffLawful` | crates/slingshot-agent-connection/src/selected_author_http2_frames.rs:162-274 | a run of frames is let through exactly when it is lawful by position: a non-ACK SETTINGS first, CONTINUATION exactly behind unfinished header fragments, nothing of the response behind its end, DATA only behind a header section, a second section only as allowed trailers that end the stream, each section within the bound |
| `Http2Frames.EndIffComplete` | crates/slingshot-agent-connection/src/selected_author_http2_frames.rs:167-178 | behind a lawful run a clean transport end is accepted exactly when the run holds a complete head and an end of stream and no reset |
| `Http2Frames.CutWire` | crates/slingshot-agent-connection/src/selected_author_http2_request.rs:34-52 | a written frame is cut off the front of whatever follows it exactly as it was |
| `Http2FrameReader.WholeTransport` | crates/slingshot-agent-connection/src/selected_author_http2_frames.rs:145-274 | over every transport the reader hands on the longest lawful run of the frames that are there, and proves the end exactly when those are all of them, nothing is left over and they are complete |
| `Http2FrameReader.ResponseFrameReader.ReadNext` | crates/slingshot-agent-connection/src/selected_author_http2_frames.rs:145-160 | refusals and the end poison for good, so at most one end proof is ever issued; a frame is handed on with its header padding and priority removed |
| `Http2FrameReader.ResponseFrameReader.ReadFrame` | crates/slingshot-agent-connection/src/selected_author_http2_frames.rs:162-274 | reading head, prelude, payload and padding piece by piece decides what the whole frame decides |
| `Http2FrameReader.ResponseFrameReader.CheckHead` | crates/slingshot-agent-connection/src/selected_author_http2_frames.rs:181-215 | a head is refused before anything behind it is read exactly when its order, stream or length rules it out |
| `Http2FrameReader.ResponseFrameReader.ReadContent` | crates/slingshot-agent-connection/src/selected_author_http2_frames.rs:216-258 | a header fragment is charged before it is read, and the limit flag is set exactly when the announced fragment passes the bound |
| `Http2FrameReader.ValidateControlPayload` | crates/slingshot-agent-connection/src/selected_author_http2_frames.rs:279-319 | padding, priority dependency, settings values and window increments, in both directions |
| `Http2Frames.OrderSafety` | crates/slingshot-agent-connection/src/selected_author_http2_frames.rs:162-274 | for any two frames of an accepted run, in plain frame types and flag bits: SETTINGS first and no ACK, CONTINUATION exactly behind an unfinished fragment, one header block, DATA only behind it, no DATA or HEADERS behind a reset or an END_STREAM, all fragments together within the bound |
| `Http2Frames.EndSafety` | crates/slingshot-agent-connection/src/selected_author_http2_frames.rs:167-178 | when a transport end is clean, in frame types and flag bits, both directions |
| `Http2Grammar.CutIff` | crates/slingshot-agent-connection/src/selected_author_http2_frames.rs:162-181 | a frame is cut off an input if and only if the input begins with its length, type, flags, stream word with any reserved bit, and payload |
| `Http2Grammar.LocalIff` | crates/slingshot-agent-connection/src/selected_author_http2_frames.rs:181-319 | a frame passes the checks on it alone if and only if it is short enough and its payload spells a payload of its type, padding, priority, settings and words included, on a stream and with flags that fit |
| `Http2Grammar.FragmentRead` | crates/slingshot-agent-connection/src/selected_author_http2_frames.rs:216-258 | the fragment handed on is exactly what padding and priority were put around |
| `Http2Grammar.SettingsRead` | crates/slingshot-agent-connection/src/selected_author_http2_frames.rs:279-319 | settings are read back, in order, as they were spelled |
| `Http2Request.AppendString` | crates/slingshot-agent-connection/src/selected_author_http2_request.rs:119-132 | the length loop writes the shortest prefix integer, then the raw octets |
| `Http2Request.AppendField` | crates/slingshot-agent-connection/src/selected_author_http2_request.rs:111-117 | a never-indexed literal with a literal name |
| `Http2Request.DecodeEncoded` | crates/slingshot-agent-connection/src/selected_author_http2_request.rs:111-132 | the whole-block decoder delivers exactly the encoded fields, in order, and leaves the table alone, and refuses the block if a name is empty |
| `Http2Request.FragmentsJoin` | crates/slingshot-agent-connection/src/selected_author_http2_request.rs:31-53 | the HEADERS and CONTINUATION payloads are the block, nothing lost or reordered |
| `Http2EndToEnd.EndToEnd` | crates/slingshot-agent-connection/src/selected_author_http2_request.rs:31-132 | any fields whose block fits the bound, encoded, fragmented, written behind any opening SETTINGS frame, read back and pushed fragment by fragment, arrive exactly, in order, with the dynamic table still empty, if and only if every name is non-empty and the sink takes them; the end is proved exactly for an empty body and a non-empty field list |
| `Http2EndToEnd.LawfulSurvives` | crates/slingshot-agent-connection/src/selected_author_http2_frames.rs:145-274 | any lawful run of frames survives the wire whole |
| `Http2EndToEnd.SentLawful` | crates/slingshot-agent-connection/src/selected_author_http2_request.rs:31-53 | the head frames behind a SETTINGS frame are a lawful run |
| `Http2Flow.Conserved` | crates/slingshot-agent-connection/src/selected_author_http2_flow.rs:33-117 | over every run of observed frames and reservations: connection = 65535 + connection credit - reserved, stream = current initial size + stream credit - reserved, connection within [0, 2^31-1] and stream within [-(2^31-1), 2^31-1] |
| `Http2Flow.SettledIff` | crates/slingshot-agent-connection/src/selected_author_http2_flow.rs:43-56 | a SETTINGS payload is taken exactly when every initial size in it leaves the stream window representable, and then only the last one counts |
| `Http2Flow.SendWindows.Observe` | crates/slingshot-agent-connection/src/selected_author_http2_flow.rs:33-65 | applied to a copy: a refused frame changes nothing |
| `Http2Flow.SendWindows.InitialStreamSize` | crates/slingshot-agent-connection/src/selected_author_http2_flow.rs:74-87 | shifts the stream window by the change of size, refused on overflow |
| `Http2Flow.SendWindows.Credit` | crates/slingshot-agent-connection/src/selected_author_http2_flow.rs:91-106 | zero, oversized and overflowing credit is refused |
| `Http2Flow.SendWindows.Reserve` | crates/slingshot-agent-connection/src/selected_author_http2_flow.rs:111-117 | takes the same count from both windows, at most a frame, at most what remains, and nothing a window does not allow |
| `Http2Flow.ReceiveWindows.ReceiveFrame` | crates/slingshot-agent-connection/src/selected_author_http2_flow.rs:137-176 | charges the whole payload, padding included, before it exposes the unpadded content; a refusal changes nothing |
| `Http2Flow.ReceivedPayload.Release` | crates/slingshot-agent-connection/src/selected_author_http2_flow.rs:188-200 | returns exactly what was charged and the two updates that tell the peer; none for an empty payload |
| `Http2Flow.UpdateRead` | crates/slingshot-agent-connection/src/selected_author_http2_flow.rs:188-200 | what a peer reads in those octets is that credit on that stream |
| `Http2Grammar.DataContentIff` | crates/slingshot-agent-connection/src/selected_author_http2_flow.rs:137-160 | the content of a DATA frame is c if and only if the payload is c, or with the padding flag is the length of a pad, c and that pad; any other padded payload has none |
| `Http2Grammar.ObservedSays` | crates/slingshot-agent-connection/src/selected_author_http2_flow.rs:33-56 | what SETTINGS and WINDOW_UPDATE do to the send windows, by the identifiers, values and increments they spell |
| `Http2Grammar.ObservedOnly` | crates/slingshot-agent-connection/src/selected_author_http2_flow.rs:33-65 | and nothing else moves them: no other type, no SETTINGS on a stream, no ACK with settings, no update of another stream |
| `Http2Flow.CreditedIff` | crates/slingshot-agent-connection/src/selected_author_http2_flow.rs:91-106 | credit is taken exactly for stream 0 or 1, from 1 to 2^31-1, and if the window stays below 2^31 |
| `Http2Flow.AllowanceIsMost` | crates/slingshot-agent-connection/src/selected_author_http2_flow.rs:111-117 | a reservation is the largest count that fits a frame, what remains and both windows |
| `Http2Headers.FinishedIff` | crates/slingshot-agent-connection/src/selected_author_http2_headers.rs:108-229 | the reader finishes with a status and fields exactly when it was told just those in that order and they are a lawful head: one final :status, first and alone, every other field ordinary, every count and size within its bound |
| `Http2Headers.FedSound` | crates/slingshot-agent-connection/src/selected_author_http2_headers.rs:108-216 | what was told is what is stored, in every reachable state |
| `Http2Headers.LawfulTaken` | crates/slingshot-agent-connection/src/selected_author_http2_headers.rs:108-216 | every lawful head is taken |
| `Http2Headers.DecodedHeadReader.BeginField` | crates/slingshot-agent-connection/src/selected_author_http2_headers.rs:108-118 | counted and charged before anything is stored |
| `Http2Headers.DecodedHeadReader.NameByte` | crates/slingshot-agent-connection/src/selected_author_http2_headers.rs:121-139 | lower-case token octets only, a colon only first |
| `Http2Headers.DecodedHeadReader.BeginValue` | crates/slingshot-agent-connection/src/selected_author_http2_headers.rs:142-158 | pseudo-fields are closed: only a first :status |
| `Http2Headers.DecodedHeadReader.ValueByte` | crates/slingshot-agent-connection/src/selected_author_http2_headers.rs:161-178 | no NUL, CR or LF, no leading blank, within the field bound |
| `Http2Headers.DecodedHeadReader.EndField` | crates/slingshot-agent-connection/src/selected_author_http2_headers.rs:181-216 | commits a complete field; connection-level names and invalid statuses are refused |
| `Http2Headers.DecodedHeadReader.Finish` | crates/slingshot-agent-connection/src/selected_author_http2_headers.rs:220-229 | no partial or refused head is retrievable |
| `Http2Headers.AsWritten` | crates/slingshot-agent-connection/src/selected_author_http2_headers.rs:181-216 | the statuses taken are 200 to 299 and 400 to 599, written in decimal, and the refused names are the connection-level ones by their spelling |
| `Http2Headers.OctetClasses` | crates/slingshot-agent-connection/src/selected_author_http2_headers.rs:121-178 | which octets may stand in a name and in a value, by the token grammar |
| `Http2Response.CompletedIff` | crates/slingshot-agent-connection/src/selected_author_http2_response.rs:85-226 | over every run of frames the assembler takes them all and finishes with a status, fields and body exactly when they are one uninterrupted header block that decodes to that lawful head, then DATA whose unpadded contents are that body within the maximum and equal to any declared length, with the end of stream on exactly the last frame |
| `Http2Response.AcceptedExplained` | crates/slingshot-agent-connection/src/selected_author_http2_response.rs:85-153 | every accepted run is such a response or a prefix of one |
| `Http2Response.ExplainedAccepted` | crates/slingshot-agent-connection/src/selected_author_http2_response.rs:85-153 | and every such prefix is accepted, with exactly that state |
| `Http2Response.RefusalIsFinal` | crates/slingshot-agent-connection/src/selected_author_http2_response.rs:85-104 | behind a refused frame nothing is taken |
| `Http2FiniteResponse.FiniteResponse.Accept` | crates/slingshot-agent-connection/src/selected_author_http2_response.rs:85-104 | the in-place assembler steps exactly so, poisoned before any work; credit for the whole payload of accepted DATA |
| `Http2FiniteResponse.FiniteResponse.TakeHead` | crates/slingshot-agent-connection/src/selected_author_http2_response.rs:106-125 | fragments go to one live block; END_HEADERS finishes it and installs the head |
| `Http2FiniteResponse.FiniteResponse.TakeData` | crates/slingshot-agent-connection/src/selected_author_http2_response.rs:127-153 | bounds, declared length and bodiless statuses, with both receive windows restored |
| `Http2FiniteResponse.FiniteResponse.InstallHead` | crates/slingshot-agent-connection/src/selected_author_http2_response.rs:166-187 | a head whose declared length no response could keep is refused before any body |
| `Http2FiniteResponse.FiniteResponse.Finish` | crates/slingshot-agent-connection/src/selected_author_http2_response.rs:210-226 | only an ended, unpoisoned response with a head and no open block |
| `Http2Exchange.AnswerIff` | crates/slingshot-agent-connection/src/selected_author_http2.rs:333-405 | over every transport that ends, behind any lawful frames already read: the read loop answers with a response if and only if the octets are the wire of lawful frames that end cleanly, nothing intolerable stands before the end of the response, and the response frames among them are complete with exactly that head and body |
| `Http2Exchange.ReadResponse` | crates/slingshot-agent-connection/src/selected_author_http2.rs:333-405 | a live frame reader and a live response, driven frame by frame to the end of a transport, give that answer |
| `Http2Exchange.FramesIff` | crates/slingshot-agent-connection/src/selected_author_http2.rs:360-405 | control frames between the response frames change nothing about the answer, unless one of them ends the exchange early |
| `Http2Response.DeclaredIs` | crates/slingshot-agent-connection/src/selected_author_http2_response.rs:229-243 | no content-length field declares nothing, exactly one that prints a 64-bit number declares it, two refuse the head |
| `Http2Response.InstallableIff` | crates/slingshot-agent-connection/src/selected_author_http2_response.rs:166-187 | a declared length is kept out by the body maximum, by 204 altogether, and by 205 and an ended head unless zero |
| `Http2Response.CompleteBody` | crates/slingshot-agent-connection/src/selected_author_http2_response.rs:127-153 | a complete response has a body within the maximum, none for 204 and 205, and of exactly the declared length |
| `Http2Driver.RequestWritten` | crates/slingshot-agent-connection/src/selected_author_http2.rs:210-331 | in every interleaving the head frames come first and together, DATA payloads are a prefix of the body in non-empty pieces of at most 16384 octets, END_STREAM is on exactly the piece that completes the body, and a finished writer has reset the stream exactly when the body was not all sent |
| `Http2Driver.DataWithinWindows` | crates/slingshot-agent-connection/src/selected_author_http2.rs:229-256 | cumulative DATA never exceeds what the connection window has granted, nor the stream window at any DATA frame |
| `Http2Driver.WindowsFollow` | crates/slingshot-agent-connection/src/selected_author_http2.rs:300-331 | the send windows are always those of the frames observed and the reservations made |
| `Http2DriverReader.CreditAgreement` | crates/slingshot-agent-connection/src/selected_author_http2.rs:360-383 | whenever the reader is about to read another frame, the credit written on stream 0 and on stream 1 each equals all DATA payload accepted, padding included |
| `Http2DriverReader.AnswerComplete` | crates/slingshot-agent-connection/src/selected_author_http2.rs:333-405 | a finished reader answers with exactly the complete response its frames were |
| `Http2DriverReader.NoDeadlock` | crates/slingshot-agent-connection/src/selected_author_http2.rs:186-208 | the two sides never wait for each other through the capacity-one channel: unless both are done or the reader waits for the network, one of them can go on |
| `Http2DriverControls.ControlsAnswered` | crates/slingshot-agent-connection/src/selected_author_http2.rs:300-331 | in every interleaving control frames are dealt with in the order they were passed on, none lost between reader, channel and writer, and the acknowledgements written are exactly those due: one per SETTINGS, and every PING with its own octets |
| `Http2DriverControls.NothingDropped` | crates/slingshot-agent-connection/src/selected_author_http2.rs:521-553 | in every run that has not failed, the control frames passed on are exactly the SETTINGS, WINDOW_UPDATE and non-ACK PING frames among the frames received, and the response frames accepted exactly the others of type DATA, HEADERS and CONTINUATION, in order, computed from the labels alone |
| `Http2DriverControls.ReceiveFailsIff` | crates/slingshot-agent-connection/src/selected_author_http2.rs:521-575 | a received frame that is not of the response ends the exchange exactly if it is a reset, a SETTINGS ACK, or a GOAWAY with an error or from before this stream |
| `Http2DriverControls.TakeObserves` | crates/slingshot-agent-connection/src/selected_author_http2.rs:300-331 | which control frames the send windows hear of when the writer takes them: all settings and all updates, except the stream's own once the body is sent |
| `Http2Grammar.PoliteIff` | crates/slingshot-agent-connection/src/selected_author_http2.rs:567-575 | a GOAWAY is tolerated exactly with error code zero and a last stream of at least 1, its reserved bit ignored |
| `Http2DriverEnds.EndsOnce` | crates/slingshot-agent-connection/src/selected_author_http2.rs:210-275 | in every interleaving the request's half of the stream is ended at most once |
| `Http2DriverEnds.EndsIff` | crates/slingshot-agent-connection/src/selected_author_http2.rs:210-275 | and it has been ended, on HEADERS or on DATA, exactly when the head is begun and all of the body is written |
| `Http2DriverEnds.HeadIs` | crates/slingshot-agent-connection/src/selected_author_http2_request.rs:31-53 | the head frames carry the block whole, HEADERS first and CONTINUATION behind it, END_HEADERS exactly on the last and END_STREAM exactly on the first of a request without a body |
| `Http2DriverProgress.FailsIff` | crates/slingshot-agent-connection/src/selected_author_http2.rs:186-582 | in every reachable state a step ends the exchange early if and only if it is the transport's failure or early end, a frame no response continues with, a reset, an ACK of settings, an impolite GOAWAY, a control frame the send windows cannot take, or a collected response the policy refuses; nothing behind the end of the response does, and the writer never finds its reader gone |
| `Http2DriverProgress.CanFinish` | crates/slingshot-agent-connection/src/selected_author_http2.rs:186-405 | from any reachable state with nothing on its way between the two sides, whatever the writer is doing and however little the windows allow, if the frames still to come complete the response then both sides can finish and the answer is that response |
| `Http2DriverProgress.BodyCanFinish` | crates/slingshot-agent-connection/src/selected_author_http2.rs:229-256 | windows that hold what is left of the body are enough to send all of it |
| `Http2DriverProgress.DataFlows` | crates/slingshot-agent-connection/src/selected_author_http2.rs:229-256 | the next piece of the body can be written exactly while some is left and both windows are open, and costs both windows its size |
| `Http2Driver.WireInNumbers` | crates/slingshot-agent-connection/src/selected_author_http2.rs:210-331 | in every interleaving each frame written is one of the writer's own, and each DATA frame has 1 to 16384 octets on stream 1 and the end flag exactly where the body is complete |
| `Http2DriverReader.ReaderRuns` | crates/slingshot-agent-connection/src/selected_author_http2.rs:333-553 | what the reader keeps in every interleaving: the handshake with the writer, agreement of frame gate and assembler, credit, and the answer |
| `Http2DriverReader.NegotiatedGate` | crates/slingshot-agent-connection/src/selected_author_http2_handshake.rs:75-112 | behind any negotiation the frame gate stands where the exchange starts it |
| `ChunkSize.SizeIff` | crates/slingshot-agent-connection/src/selected_author_http.rs:412-479 | a size is read from a line exactly when the line is spelled by the grammar of section 7.1.1 of RFC 9112 with hexadecimal digits of that value below 2^64, whatever the extensions say |
| `ChunkSize.DecodeChunkSize` | crates/slingshot-agent-connection/src/selected_author_http.rs:412-448 | the scanning loops decide that, and terminate |
| `ChunkSize.SkipQuoted` | crates/slingshot-agent-connection/src/selected_author_http.rs:456-479 | a quoted value ends at its first unescaped quote |
| `ChunkSize.SizeWritten` | crates/slingshot-agent-connection/src/selected_author_http.rs:412-448 | every 64-bit number written in hexadecimal, with any lawful extensions, is read as that number |
| `ChunkSize.DigitIff` | crates/slingshot-agent-connection/src/selected_author_http.rs:412-448 | which octets are hexadecimal digits and of what value |
| `ChunkSize.QuotedIff` | crates/slingshot-agent-connection/src/selected_author_http.rs:456-479 | which octets may stand in quotes, plain and escaped |
| `ChunkedBody.ChunkedIff` | crates/slingshot-agent-connection/src/selected_author_http.rs:346-410 | a body is read from a chunked transport exactly when the transport is some cutting of it into non-empty chunks, each announced by a valid line within the line bound, closed by an empty chunk, with nothing behind, within the limit |
| `ChunkedBody.ChunksOf` | crates/slingshot-agent-connection/src/selected_author_http.rs:358-372 | any such cutting is read back whole |
| `ChunkedBody.ReadFramedBody` | crates/slingshot-agent-connection/src/selected_author_http.rs:346-382 | fixed and chunked bodies, and the end of the transport behind them |
| `ChunkedBody.FixedIff` | crates/slingshot-agent-connection/src/selected_author_http.rs:352-381 | a body of a fixed length is the whole transport, no more and no less, within the limit |
| `ChunkedBody.ReadBodyPart` | crates/slingshot-agent-connection/src/selected_author_http.rs:384-406 | collects exactly the announced octets however the transport cuts them, never past the limit |
| `ChunkedBody.ReadChunkLine` | crates/slingshot-agent-connection/src/selected_author_http.rs:554-576 | the first line feed must end a CRLF, within the bound |
| `HeadGates.CountedIff` | crates/slingshot-agent-connection/src/selected_author_http.rs:804-833 | the streaming count refuses a line exactly when name and trimmed value together pass the bound, and is otherwise their length, for every line |
| `HeadGates.FieldByteAccounting.Observe` | crates/slingshot-agent-connection/src/selected_author_http.rs:812-833 | one octet of that count |
| `HeadGates.ReadHead` | crates/slingshot-agent-connection/src/selected_author_http.rs:676-700 | the head read through both gates is the head read through one: the field reader never refuses what the line reader let through |
| `HeadGates.ShowField` | crates/slingshot-agent-connection/src/selected_author_http.rs:690-697 | a line within the first gate's bounds is split at its colon, trimmed, and always accepted by the second gate |
| `HeadGates.ReadFieldLine` | crates/slingshot-agent-connection/src/selected_author_http.rs:773-802 | a field line is accepted exactly within the raw budget, the field count and the decoded bound, and nothing past a bound is collected |
| `HeadGates.HeadReader.ReadField` | crates/slingshot-agent-connection/src/author_hypertext_transfer_protocol_policy.rs:145-170 | refuses exactly past one of its three bounds, and then counts nothing |
| `HeadGrammar.HeadIff` | crates/slingshot-agent-connection/src/selected_author_http.rs:676-700 | a head is read from an input if and only if the input is a status line that stands for that status, field lines whose lower-cased names and trimmed values are those fields in that order, and an empty line, within the field count, the decoded field bound and the raw bound |
| `HeadGates.FieldLineRead` | crates/slingshot-agent-connection/src/selected_author_http.rs:690-697 | a name, a colon, blanks, a value and blanks are read as that name and that value, and only their octets are counted |
| `HeadGates.LowerIs` | crates/slingshot-agent-connection/src/selected_author_http.rs:690-697 | names lose their capitals and nothing else |
| `EventStream.AnyChunks` | crates/slingshot-agent-connection/src/server_sent_event_decoder.rs:479-642 | for every stream and every chunking the decoder delivers exactly the items of a whole-stream reader that splits at CRLF, LF or CR and then folds the lines |
| `EventStream.SpellingIrrelevant` | crates/slingshot-agent-connection/src/server_sent_event_decoder.rs:522-543 | line ends spelled LF, CR or CRLF, chosen line by line, give the same items, as long as no CR stands right before the LF of an empty line |
| `EventStream.MeantIff` | crates/slingshot-agent-connection/src/server_sent_event_decoder.rs:522-543 | that exception is exact: every line is read as itself if and only if no CR stands right before the LF of an empty line |
| `EventStream.SplitSpelled` | crates/slingshot-agent-connection/src/server_sent_event_decoder.rs:522-543 | any spelling splits into the lines it stands for, a CR and a following LF counted as one end |
| `EventStream.UniformIsDistinct` | crates/slingshot-agent-connection/src/server_sent_event_decoder.rs:522-543 | one spelling used throughout, whichever it is, never meets the exception |
| `EventStream.RefusalIsFinal` | crates/slingshot-agent-connection/src/server_sent_event_decoder.rs:479-509 | behind the first refusal, the consumer's included, nothing is delivered and earlier items stand |
| `EventStream.FeedSound` | crates/slingshot-agent-connection/src/server_sent_event_decoder.rs:522-717 | pending lines and event data never outgrow their bounds, every delivered event was asked for and every ending authenticated, and the consumer took each item |
| `EventStream.GroupMeans` | crates/slingshot-agent-connection/src/server_sent_event_decoder.rs:572-609 | the payload of an event is all its data values joined by line feeds; name and cursor are the last ones given |
| `EventStream.ServerSentEventDecoder.PushEach` | crates/slingshot-agent-connection/src/server_sent_event_decoder.rs:479-509 | items go out as soon as they are complete; any refusal closes for good |
| `EventStream.ServerSentEventDecoder.TakeOctet` | crates/slingshot-agent-connection/src/server_sent_event_decoder.rs:522-543 | one octet, with the line feed of a CRLF swallowed |
| `EventStream.ServerSentEventDecoder.EndLine` | crates/slingshot-agent-connection/src/server_sent_event_decoder.rs:546-564 | blank line, comment, or field line within the event bound |
| `EventStream.ServerSentEventDecoder.TakeField` | crates/slingshot-agent-connection/src/server_sent_event_decoder.rs:572-591 | data, event and id; everything else is ignored |
| `EventStream.ServerSentEventDecoder.EndEvent` | crates/slingshot-agent-connection/src/server_sent_event_decoder.rs:594-642 | an event leaves only if it parses, was requested and is correlated |
| `EventStream.ServerSentEventDecoder.Discard` | crates/slingshot-agent-connection/src/server_sent_event_decoder.rs:719-726 | forgets the event but not the carriage return just seen |
| `EventStream.BlankLineDelivers` | crates/slingshot-agent-connection/src/server_sent_event_decoder.rs:594-642 | for any field lines since the last blank line and then an empty one: nothing if no data, event or id was among them; else the document their joined data spells, with the last name or none and the last cursor or none, if it is acceptable and the consumer takes it; else the stream is closed |
| `EventStream.AcceptableIff` | crates/slingshot-agent-connection/src/server_sent_event_decoder.rs:645-717 | what is asked of a document, in plain terms: known job and operation, state as its kind says, this subscription and generation, and an ending repeats the retained provenance and digest |
| `EventStream.FieldLineTakenIff` | crates/slingshot-agent-connection/src/server_sent_event_decoder.rs:546-591 | a field line is taken exactly within the line, event and cursor bounds |
| `EventStream.FieldRead` | crates/slingshot-agent-connection/src/server_sent_event_decoder.rs:572-591 | name, colon and value are read back, with one space behind the colon or none |
| `EventStream.CommentBeats` | crates/slingshot-agent-connection/src/server_sent_event_decoder.rs:546-564 | a comment is a heartbeat and leaves the event alone |
| `JobFold.HistoryAgreement` | crates/slingshot-agent-connection/src/job_event_reducer.rs:166-241 | when all events and snapshots come from one history, after any run of them, duplicated, dropped and reordered, what is held is that history's account at its position and the position never went back |
| `JobFold.NoConflict` | crates/slingshot-agent-connection/src/job_event_reducer.rs:202-241 | and no event on the way is refused or reported as a conflict, no snapshot as impossible |
| `JobFold.EventDisposed` | crates/slingshot-agent-connection/src/job_event_reducer.rs:202-227 | the disposition is decided by position alone: stale, replay, applied or gap, and only the applied one changes anything |
| `JobFold.NextAgreesIff` | crates/slingshot-agent-connection/src/job_event_reducer.rs:166-191 | the next event brings the holder to the history's account exactly when each counter is given as it is or left out unmoved: a counter left out where the history moved it is where agreement would end |
| `JobFold.SnapshotConverges` | crates/slingshot-agent-connection/src/job_snapshot_reconciliation.rs:419-445 | a snapshot of the history is stale, unchanged, adopted, ready to settle, or an ending already gone, by position and elapsed time alone |
| `JobFold.InOrderIsEnough` | crates/slingshot-agent-connection/src/job_event_reducer.rs:202-227 | events that do arrive in order bring the holder to their end, whatever arrives between them |
| `JobFold.AnyRunForward` | crates/slingshot-domain/src/remote_job.rs:250-336 | whatever arrives, however inconsistent, positions, counters and states never go back and endings stay |
| `JobFold.AdvanceIff` | crates/slingshot-domain/src/remote_job.rs:250-336 | which account may follow which, and which objection is raised when it may not |
| `JobFold.DisposedIff` | crates/slingshot-agent-connection/src/job_event_reducer.rs:202-241 | whatever is held and whatever a bound event says, the disposition by position and account, each in both directions, and when it is refused instead |
| `JobFold.ConvergedIff` | crates/slingshot-agent-connection/src/job_snapshot_reconciliation.rs:419-445 | whatever is held and whatever a snapshot says, each convergence in both directions, the retention window included |
| `JobFold.BoundIff` | crates/slingshot-agent-connection/src/job_event_reducer.rs:250-271 | which events belong to the submission: an ending with its provenance and digest, anything else with neither |
| `JobFold.ForeignEvent` | crates/slingshot-agent-connection/src/job_event_reducer.rs:166-191 | an event of another operation or generation, or not bound, is refused and changes nothing |
| `JobFold.UnansweredKeeps` | crates/slingshot-agent-connection/src/job_snapshot_reconciliation.rs:383-417 | an answer that does not echo the question, is retired or is missing changes nothing, and says which of them it was |
| `JobFold.KindsDescribe` | crates/slingshot-agent-connection/src/job_event_reducer.rs:131-138 | the state each kind of event stands for |
| `CursorOrder.EqualIff` | crates/slingshot-domain/src/stream_cursor_order.rs:17-34 | two cursors compare equal exactly when they are the same text, and the order turns around with its arguments |
| `CursorOrder.Transitive` | crates/slingshot-domain/src/stream_cursor_order.rs:17-24 | the order is transitive over mixed decimal and other spellings |
| `CursorOrder.CanonicalIff` | crates/slingshot-domain/src/stream_cursor_order.rs:31-34 | a spelling is a number's exactly when it is how that number is printed |
| `CursorOrder.PositionsByNumber` | crates/slingshot-domain/src/stream_cursor_order.rs:17-34 | positions g:q and h:r of 64-bit numbers compare by g and h and then by q and r |
| `CursorOrder.PositionIff` | crates/slingshot-domain/src/stream_cursor_order.rs:26-34 | a text is position (g, q) if and only if it is how g, a colon and q are printed and both are below 2^64 |
| `CursorOrder.OthersBelow` | crates/slingshot-domain/src/stream_cursor_order.rs:17-24 | every other spelling is below every position |
| `CursorOrder.OthersByText` | crates/slingshot-domain/src/stream_cursor_order.rs:17-24 | two other spellings compare by their first differing octet, and a prefix is below what it begins |
| `SubscriptionFold.EndsAtGreatest` | crates/slingshot-agent-connection/src/subscription_event_fold.rs:134-171 | any non-empty run of one subscription's facts ends at the greatest cursor with the digest first seen there |
| `SubscriptionFold.DisposedIff` | crates/slingshot-agent-connection/src/subscription_event_fold.rs:134-160 | a fact advances the fold exactly when its cursor is above every earlier one, is an exact replay exactly when it repeats the leading cursor and digest, and is stale exactly below it |
| `SubscriptionFold.NoConflict` | crates/slingshot-agent-connection/src/subscription_event_fold.rs:134-160 | when digests are a function of cursors no run reports a conflict |
| `SubscriptionFold.ConflictIff` | crates/slingshot-agent-connection/src/subscription_event_fold.rs:149-160 | a conflict is reported exactly when a fact repeats the greatest cursor so far with another digest than the first seen there |
| `SubscriptionFold.ForeignLeavesNoTrace` | crates/slingshot-agent-connection/src/subscription_event_fold.rs:134-147 | facts of other subscriptions and generations leave no trace, wherever they come among the others |
| `SubscriptionFold.SameFactsSameFold` | crates/slingshot-agent-connection/src/subscription_event_fold.rs:134-171 | and any two runs over the same set of facts give the same fold |

## Left out

- Sockets, TLS, ALPN, deadlines, polling and cancellation: an operation given up halfway is a refusal, and the poisoned flag set before work starts is modelled.
- The driver's `write`, `read` and `control` as loops over mutable variables: they are labelled transitions, so that every interleaving is a run; update in place is not captured there (the windows, frame reader and response they call are objects in their own modules).
- Writes that stop inside a frame: the driver writes frames whole, and a failing write is the `Fail` label.
- The live and artifact consumers of the driver: the driver is modelled with the finite response, whose stream end is terminal.
- Negotiation as a protocol of its own: only what it leaves behind (frame gate, observed settings) is modelled.
- `finite_http2_query`, request URI preparation, caller-field checks and authentication: thin wrappers around encoding that is modelled.
- The header map as a hash map: it is the sequence of fields in insertion order.
- `validate_finite_head` and `validate_collected_finite_response`: parameters of the response contract.
- JSON, canonical JSON, digests and schema checks of events and snapshots: abstract functions; `decode_snapshot` and echo comparison are a single verdict.
- A job that is not held: `reduce` then moves the cursor only and no state exists to model; the environment revision, which `reduce_decoded` copies from the binding, cannot differ and is not carried.
- Media type and attachment checks of the event stream, status-line text, and the choice between fixed and chunked framing: they decide whether a stream or body is read at all, before any of the machines here starts, and no property above depends on their outcome.
- Settlement, terminal failure, structured results, capability discovery, routes and percent-encoding: wide comparisons with little depth.
- A transport that falls silent behind the end of the response: `Http2Exchange` reads transports that end; the driver's `Stop` label covers the reader that stops waiting.
- Debug redaction and zeroing of secrets: no observable result.
- ChunkedBody.Transport.Read: hands out the largest piece it may; its contract promises only that some octets arrive unless the transport has ended, so callers are proved for every cutting.
