# A verified model of libnetpp

libnetpp is a small C++ TCP library. This project models its data path (segmented
buffers, zero-copy streams, message codec, send pipeline, piece pool), its protocols
(the life of a connection, server shutdown, the thread pool), and two algorithms of the
test framework it vendors (maximum bipartite matching, simple regular expressions), in
Dafny 4.11, and proves what they are for.

`dafny verify dfyconfig.toml` checks everything. Nothing here runs the C++ program.

| file | content |
|---|---|
| `common.dfy` | what several files share |
| `bipartite_matching.dfy` | Ford-Fulkerson matching on two assignment arrays; maximality; unordered elements |
| `simple_regex.dfy` | grammar, validator, matcher and language of simple regular expressions |
| `chunks.dfy` | the values a buffer holds, and its operations on those values |
| `pieces.dfy`, `buffer.dfy`, `buffer_runs.dfy` | the linked pieces, the buffer over them, whole runs |
| `streams.dfy` | the input and output streams over a buffer |
| `frames.dfy`, `receiving.dfy`, `codec.dfy` | the wire format and the decoder; receiving in fragments; the codec over a buffer |
| `pipeline.dfy`, `connection.dfy`, `end_to_end.dfy` | the send pipeline, the connection's data path, sender to receiver |
| `piece_pool.dfy` | the piece cache and its memory bound |
| `conn_lifecycle.dfy`, `server.dfy`, `thread_pool.dfy` | protocols as step systems over all interleavings |

## How the model is made

**The code as it is written.** Where the code does not do what it is evidently meant to
do, the model does what the code does, and a theorem says exactly when that is enough. On the
data path the code as intended is modelled beside it, as flags (`whole` of the sender,
`byteOffsets`, `limited` and `restoresTail` of the receiver), and with all of them set
`Receiving.StreamRoundTrip` and `EndToEnd.AllMessages` say that it is always enough: any
messages, in any fragmentation, are delivered in order, each once.

- `writePieceQueue` follows a link that `push` has just cleared
  (netpp/net/tcp_conn.cpp:49-58, netpp/net/piece/queue.h:34-48), so of a chain only the head
  is appended. `SendPipeline.TransmitsPayloads`: a run accepts its payloads whole if and only
  if links are read in time or each payload is one piece; `Connection.DataChain`: a payload of
  bytes is one piece if and only if it has at most 4096 of them. `EndToEnd.OneMessage` draws
  the consequence for messages.
- `peek` advances its destination by whole values (netpp/net/buffer.h:63, 67), so that a copy
  from a second piece lands outside it. The model returns `None` there.
  `Chunks.PeekedExact`: it is defined if and only if the first piece that holds any bytes holds
  all that are wanted; `Receiving.FrameRoundTrip`: a frame survives fragmentation if and only
  if `peek` goes by bytes or no fragment that does not fit behind one to three bytes straddles
  its length field.
- `parse` ignores the length and offers everything behind the name to the parser
  (netpp/net/protobuf/codec.cpp:105-133), which stops where it finds a zero tag and gives the
  rest of its piece back. A next frame under 16 megabytes begins with such a byte.
  `Frames.DecodeFrame` says what becomes of a frame with anything behind it; `Frames.FrameAndNext`: with the next frame
  behind it, the message is delivered as sent, a byte of the next frame is lost and the decoder
  is out of step; `Receiving.MessagesRoundTrip`: several messages are delivered if and only if
  every frame ends where a fragment ends and none is straddled. As intended, the parser is
  offered what the length covers (`Frames.DecodeLimited`).
- `flatBackUp` does not restore the queue's tail
  (netpp/net/protobuf/buffer_input_stream.h:68-78). `Buffers.Buffer.FlatBackUp`: the tail is
  right afterwards if and only if the queue still held a piece. Reading needs no tail, so the
  reading operations require `Readable`, the appending ones `Valid`. An append to a queue whose
  tail is lost fails an assertion of `push`, or drops what the buffer held; it ends a run as
  `Undefined`, like an undefined peek. As intended, a queue that had become empty gets its tail
  back.
- A full match does not append `$` to an expression whose text ends in an escaped one.
  `SimpleRegex.FullMatchExact`: full matching decides membership for every string if and only
  if the expression does not end in an escaped `$`.
- `stopInLoop` closes connected connections only. `Servers.StopCompletes`: stopping completes
  if no connection was accepted but not yet established at that moment, which without worker
  threads is always so, and otherwise only if the program or an error closes that connection.

**Form.** Linked pieces are heap objects with `next` fields, and the queue keeps head, tail
and size; a ghost sequence describes the chain. The block of a piece is an array inside the
C++ struct, so it is a field of the piece here, a sequence of 4096 bytes that copies and moves
rewrite. The matrix of the matching is a value, which setting an edge replaces. Methods are proved against functions on values (`view`), and the theorems are about
those functions. The closing handlers of a connection and the starting and stopping of the
thread pool are step functions rather than methods, because other threads step in between
their statements. Many bodies begin with `hide *`, which keeps definitions out of a proof that
goes by lemmas alone.

**Environment.** Whether a matcher accepts an element is a function of both. A write that completes without error has sent its whole piece. After a socket
or the acceptor is closed, completions report that they were aborted. `writePiece` reads the
length of a piece it has just given to the pool; the model lets it read the old value.
Assertions of the C++ code are preconditions here, except that of `handleClose`, which late
timers violate and the guard behind it makes harmless. A protobuf message is a type name and
its serialised fields; the type lookup sees a name up to its first NUL, as the descriptor pool's
C-string keys do. The parser of a type is a parameter: a function from the bytes it is offered
to the fields it reads, serialised again, and the number of bytes it uses. It asks for pieces
one by one, uses some of each piece it asks for, and gives the rest of the last one back, as
the decoder's destructor does (thirdparty/protobuf-3.4.1/src/google/protobuf/io/coded_stream.cc:75-100).
That generated parsers end at a zero tag, having used it, and report success
(examples/echo/proto/echo.pb.cc:265-268 and lines 489-491 of the same stream code) is the
hypothesis `StopsAtZeroTag` of the theorems that need it.

## Model

| member | source | states |
|---|---|---|
| BipartiteMatching.MaxBipartiteMatchState.TryAugment | thirdparty/protobuf-3.4.1/gmock/src/gmock-matchers.cc:259-285 | terminates by marking a fresh matcher per nested call; on failure reassigns nothing and leaves marks closed under alternating paths; on success an augmenting path existed, mutual reference is restored up to the caller's own entry, exactly the start becomes matched, nobody is unmatched, and no closed dead set is touched |
| BipartiteMatching.MaxBipartiteMatchState.Compute | thirdparty/protobuf-3.4.1/gmock/src/gmock-matchers.cc:207-238 | one pass gives a matching that no matching exceeds, and afterwards no unmatched element has an augmenting path; the check that a node is unused before its search never fires |
| BipartiteMatching.DeadSetCertifiesMaximum | thirdparty/protobuf-3.4.1/gmock/src/gmock-matchers.cc:207-238 | the matchers marked by failed searches and the elements matched outside them cover every edge, so every matching is at most as large |
| BipartiteMatching.AugmentationKeepsDead | thirdparty/protobuf-3.4.1/gmock/src/gmock-matchers.cc:213-230 | an element whose search failed once stays without augmenting path after every later augmentation |
| BipartiteMatching.DeadEndHasNoPath | thirdparty/protobuf-3.4.1/gmock/src/gmock-matchers.cc:213-230 | an element all of whose matchers are dead has no augmenting path of any length |
| BipartiteMatching.FindMaxBipartiteMatching | thirdparty/protobuf-3.4.1/gmock/src/gmock-matchers.cc:307-310 | for every matrix, a matching of maximum cardinality, without repeated pairs; for the relation the matrix was filled from, accepted pairs, and as many as any |
| BipartiteMatching.FindPairing | thirdparty/protobuf-3.4.1/gmock/src/gmock-matchers.cc:328-333 | true if and only if every matcher can be assigned its own distinct element that it accepts, by the matrix and by the relation it was filled from |
| BipartiteMatching.SetEdgeElsewhere | thirdparty/protobuf-3.4.1/gmock/include/gmock/gmock-matchers.h:3026-3045 | setting one edge changes no other |
| BipartiteMatching.NoEdgesAnywhere | thirdparty/protobuf-3.4.1/gmock/include/gmock/gmock-matchers.h:3018-3022 | a new matrix has no edge |
| BipartiteMatching.AnalyzeElements | thirdparty/protobuf-3.4.1/gmock/include/gmock/gmock-matchers.h:3168-3191 | for every relation of elements and matchers, the matrix filled row by row and edge by edge has an edge exactly where a matcher accepts an element |
| BipartiteMatching.VerifyAllElementsAndMatchersAreMatched | thirdparty/protobuf-3.4.1/gmock/src/gmock-matchers.cc:443-492 | true if and only if every matcher accepts some element and every element is accepted by some matcher |
| BipartiteMatching.MatchAndExplain | thirdparty/protobuf-3.4.1/gmock/include/gmock/gmock-matchers.h:3135-3160 | true if and only if there are as many elements as matchers and they can be put in an order in which each matcher accepts its element; the quick check before the search never changes the answer |
| SimpleRegex.ClassesExact | thirdparty/protobuf-3.4.1/gmock/fused-src/gmock-gtest-all.cc:8413-8434 | for every character, the class tests and the valid escapes are exactly the ranges of character codes they are named after |
| SimpleRegex.AtomExact | thirdparty/protobuf-3.4.1/gmock/fused-src/gmock-gtest-all.cc:8438-8457 | for every atom and character, the test is exactly whether the atom stands for the character, given by codes: a dot for all but newline, a class letter for its class or the others, anything else for itself |
| SimpleRegex.OneKind | thirdparty/protobuf-3.4.1/gmock/fused-src/gmock-gtest-all.cc:8467-8521 | every character but NUL is exactly one of literal, repetition, unsupported, backslash, caret, dollar |
| SimpleRegex.ValidateRegex | thirdparty/protobuf-3.4.1/gmock/fused-src/gmock-gtest-all.cc:8467-8521 | accepts exactly the texts of well-formed expressions of the grammar |
| SimpleRegex.ParseOfShow | thirdparty/protobuf-3.4.1/gmock/fused-src/gmock-gtest-all.cc:8467-8521 | printing then parsing an expression gives it back, so every valid text has one meaning |
| SimpleRegex.ShowOfParse | thirdparty/protobuf-3.4.1/gmock/fused-src/gmock-gtest-all.cc:8467-8521 | parsing then printing a valid text gives it back |
| SimpleRegex.MatchRepetitionAndRegexAtHead | thirdparty/protobuf-3.4.1/gmock/fused-src/gmock-gtest-all.cc:8530-8552 | true if and only if some allowed number of repetitions matches and the rest matches behind them |
| SimpleRegex.MatchRegexAtHead | thirdparty/protobuf-3.4.1/gmock/fused-src/gmock-gtest-all.cc:8557-8583 | true if and only if some prefix, all of the string if anchored, is in the declarative language, which is given by character codes; the mutual recursion terminates |
| SimpleRegex.MatchRegexAnywhere | thirdparty/protobuf-3.4.1/gmock/fused-src/gmock-gtest-all.cc:8593-8606 | true if and only if some substring that respects both anchors is in the language; null arguments do not match |
| SimpleRegex.RE.Init | thirdparty/protobuf-3.4.1/gmock/fused-src/gmock-gtest-all.cc:8627-8658 | valid exactly for well-formed texts, with the full pattern built |
| SimpleRegex.RE.FullMatch | thirdparty/protobuf-3.4.1/gmock/fused-src/gmock-gtest-all.cc:8616-8618 | membership of the whole string, or of a prefix when the expression ends in an escaped dollar |
| SimpleRegex.RE.PartialMatch | thirdparty/protobuf-3.4.1/gmock/fused-src/gmock-gtest-all.cc:8622-8624 | some substring that respects the anchors is in the language |
| SimpleRegex.FullMatchExact | thirdparty/protobuf-3.4.1/gmock/fused-src/gmock-gtest-all.cc:8627-8658 | full matching decides membership for every string if and only if the expression does not end in an escaped dollar |
| SimpleRegex.EscapedDollarOvermatches | thirdparty/protobuf-3.4.1/gmock/fused-src/gmock-gtest-all.cc:8652-8653 | an expression and a string for which it does not |
| Pieces.Queue.Push | netpp/net/piece/queue.h:34-48 | appends one piece to the chain and keeps head, tail, size, links and distinctness |
| Pieces.Queue.Pop | netpp/net/piece/queue.h:50-62 | takes the first piece of the chain, or null from an empty one, and keeps the rest well formed |
| Pieces.Piece.Compact | netpp/net/tcp_conn.cpp:9-12 | moving the bytes of a piece to the front of its block, over themselves, keeps them |
| Buffers.Buffer.Write | netpp/net/buffer.cpp:184-209 | appends exactly the bytes given, in the last piece and as many new ones as needed, never beyond a block |
| Chunks.WriteFlat | netpp/net/buffer.cpp:184-209 | filling tail after tail is appending, for all layouts and lengths |
| Buffers.Buffer.Read | netpp/net/buffer.cpp:103-130 | returns exactly the first bytes and leaves exactly the others |
| Buffers.Buffer.ReadInto | netpp/net/buffer.cpp:136-164 | moves exactly the first bytes to the back of the other buffer; no piece ends up in both |
| Buffers.Buffer.Skip | netpp/net/buffer.cpp:211-233 | drops exactly the first bytes |
| Chunks.Drop | netpp/net/buffer.cpp:211-233 | popping and advancing pieces drops exactly n bytes and leaves no empty piece where there was none |
| Chunks.Take | netpp/net/buffer.cpp:136-164 | the pieces moved hold exactly the first n bytes |
| Buffers.Buffer.Prepend | netpp/net/buffer.cpp:48-56 | puts the bytes in front of all others, in the room of the first piece |
| Buffers.Buffer.ReservedPrepend | netpp/net/buffer.cpp:24-32 | an empty first piece with the room asked for |
| Buffers.Buffer.Peek | netpp/net/buffer.h:49-73 | the first n bytes, unchanged buffer; defined if and only if they lie together |
| Buffers.Buffer.PeekByBytes | netpp/net/buffer.h:49-73 | as intended: always the first n bytes |
| Chunks.PeekedExact | netpp/net/buffer.h:49-73 | the same of the value, for all layouts |
| Buffers.Buffer.Swap | netpp/net/buffer.cpp:13-18 | exchanges contents and ownership of two buffers |
| Buffers.Buffer.MoveToQueueHead | netpp/net/buffer.cpp:235-244 | gives the whole chain away and leaves an empty buffer |
| BufferRuns.RunRefines | netpp/net/buffer.cpp:13-233 | every run of write, read, skip, reserve, prepend, peek, move and swap in which no peek is undefined gives the contents and results of the same run on plain byte sequences; a peek by byte offsets is never undefined |
| BufferRuns.Execute | netpp/net/buffer.cpp:13-233 | every such run on buffers in memory does the same and keeps both of them well formed and apart |
| Buffers.Buffer.WritePiece | netpp/net/tcp_conn.cpp:5-21 | appends exactly the bytes of the piece, coalesced with the last one when both fit a block |
| Chunks.WithPieceFlat | netpp/net/tcp_conn.cpp:5-21 | coalescing or not, the bytes are appended; no empty piece arises |
| Buffers.Buffer.ReadPiece | netpp/net/tcp_conn.cpp:23-47 | the piece returned and the remaining contents are the old contents, in order |
| Chunks.CoalescedExact | netpp/net/tcp_conn.cpp:23-47 | nothing is lost or reordered, the piece fits a block, and it stops growing only when full, when nothing is left, or when the next piece does not fit |
| Buffers.Buffer.WritePieceQueue | netpp/net/tcp_conn.cpp:49-58 | the loop ends after one round: of the chain exactly the head is appended |
| Buffers.Buffer.WriteWholeQueue | netpp/net/tcp_conn.cpp:49-58 | as intended, with each link read before the push: the whole chain is appended, in order |
| Buffers.Buffer.FlatBackUp | netpp/net/protobuf/buffer_input_stream.h:68-78 | gives exactly the last bytes back in front; the tail is right afterwards if and only if it was and the queue still held a piece, or, as intended, if it was or the queue held none |
| Streams.BufferInputStream.Next | netpp/net/protobuf/buffer_input_stream.h:23-66 | consumed and remaining bytes stay the original ones; without empty pieces it fails only at the end of the data |
| Streams.BufferInputStream.BackUp | netpp/net/protobuf/buffer_input_stream.h:31-35 | un-consumes exactly the bytes given back, in front of the others; the tail is lost if and only if the piece was the last |
| Streams.BufferInputStream.Skip | netpp/net/protobuf/buffer_input_stream.h:37-43 | consumes exactly the bytes skipped, or nothing if there are too few |
| Streams.BufferInputStream.ByteCount | netpp/net/protobuf/buffer_input_stream.h:45-47 | the number of bytes consumed |
| Streams.BufferOutputStream.Next | netpp/net/protobuf/buffer_output_stream.h:30-41 | lends all the room at the end, which is not empty; all bytes before it and the room in front of the first piece stay |
| Streams.BufferOutputStream.BackUp | netpp/net/protobuf/buffer_output_stream.h:43-49 | exactly the bytes not given back are kept |
| Streams.BufferOutputStream.ByteCount | netpp/net/protobuf/buffer_output_stream.h:23-25 | the number of bytes kept |
| Streams.BufferOutputStream.Put | netpp/net/protobuf/buffer_output_stream.h:15-49 | borrowing, storing and giving back appends exactly the bytes stored |
| Frames.BigEndianRoundTrip | netpp/net/buffer.cpp:166-169 | an integer written in network order reads back as itself, and wrapped to 32 bits beyond them |
| Frames.DecodeFrame | netpp/net/protobuf/codec.cpp:22-133 | a frame with anything behind it: the parser is offered the body and all of that, what it makes of them is delivered, and the loop goes on with exactly the bytes it has not used; the tail is lost if and only if these are a proper part of the last piece |
| Frames.DecodeLast | netpp/net/protobuf/codec.cpp:22-133 | a frame with nothing behind it is delivered as sent, once, and leaves an empty buffer that can be appended to |
| Frames.DecodeLimited | netpp/net/protobuf/codec.cpp:22-133 | as intended, with the length heeded: a frame with anything behind it is delivered as sent, and exactly that is left; the tail is kept where it is restored |
| Frames.FrameAndNext | netpp/net/protobuf/codec.cpp:22-51 | a frame with part of the next one behind it: the message is delivered as sent, the first byte of the next frame is lost, and the rest of it is never taken for a message: it waits, its peek is undefined, or its length is invalid, each exactly when |
| Frames.OnMessageIsByBytes | netpp/net/protobuf/codec.cpp:22-51 | events and remaining bytes depend on the bytes alone, not on the pieces, up to the first undefined peek, through all rounds of the loop; by byte offsets there is none |
| Frames.DeliverSound | netpp/net/protobuf/codec.cpp:105-133 | every message delivered was framed somewhere in the bytes, with a length in the limits and a registered name, and is what its parser made of all bytes behind the name |
| Frames.DecodeErrors | netpp/net/protobuf/codec.cpp:22-133 | for every length field, name length and bytes behind them, which error is reported and what is left, or that nothing is done yet |
| Receiving.ReceivePart | netpp/net/protobuf/codec.cpp:22-51 | for every part of a frame in every fragmentation: nothing before the last byte, then the message and an empty buffer, or an undefined peek exactly when a fragment straddles the length field and `peek` does not go by bytes |
| Receiving.FrameRoundTrip | netpp/net/protobuf/codec.cpp:22-133 | for every receivable message and fragmentation of its frame, nothing is delivered before the last fragment and then exactly the message, once, if and only if `peek` goes by bytes or no fragment straddles |
| Receiving.StraddlingExample | netpp/net/buffer.h:49-73 | a receivable message and a fragmentation of its frame for which it does not |
| Receiving.SmallFramesNeverStraddle | netpp/net/protobuf/codec.cpp:22-51 | a frame of at most one block round-trips in every fragmentation |
| Receiving.InputStaysTight | netpp/net/tcp_conn.cpp:5-21 | over every run of reads, two pieces next to each other behind the first never fit one block, so the pieces of the input buffer are at least half full but for two |
| Receiving.InStepDelivers | netpp/net/protobuf/codec.cpp:22-51 | any number of receivable messages, every frame ending where a fragment ends and none straddled, are delivered in order, each once, and leave an empty buffer |
| Receiving.MessagesRoundTrip | netpp/net/protobuf/codec.cpp:22-133 | for any number of messages under 16 megabytes whose parsers stop at a zero tag and whose type names without the first character are not registered, and any fragmentation of their stream, exactly they are delivered, in order, if and only if every frame ends where a fragment ends and none is straddled |
| Receiving.ReceiveOutOfStep | netpp/net/protobuf/codec.cpp:22-133 | once a fragment has brought bytes of two frames, no further fragments bring a message before an error or something undefined |
| Receiving.SharedFragmentExample | netpp/net/protobuf/codec.cpp:105-133 | two frames in one fragment: the second message is lost, and so is the tail |
| Receiving.DecodeStream | netpp/net/protobuf/codec.cpp:22-51 | as intended: of a buffer that holds the beginning of a stream of frames, exactly the complete messages are taken out, and the bytes behind them stay |
| Receiving.StreamRoundTrip | netpp/net/protobuf/codec.cpp:22-133 | as intended: any messages, in any fragmentation of their stream, are delivered in order, each once and as soon as it is complete, and leave an empty buffer |
| Codec.FillEmptyBuffer | netpp/net/protobuf/codec.cpp:77-87 | the buffer holds exactly the frame, and its first piece exactly the first 4096 bytes of it |
| Codec.Consume | netpp/net/protobuf/buffer_input_stream.h:23-78 | a parser that uses n bytes of the stream leaves exactly the others, and loses the tail if and only if these are a proper part of the last piece |
| Codec.Parse | netpp/net/protobuf/codec.cpp:105-133 | does to a buffer in memory what the decoder's value function does, all error cases, bytes given back and a lost tail included |
| Codec.OnMessage | netpp/net/protobuf/codec.cpp:22-51 | the same of the message callback, with as many rounds of its loop as there are |
| SendPipeline.Conservation | netpp/net/tcp_conn.cpp:152-180 | in every run, closes and a failed write included, bytes sent, lost, in flight and buffered are together what was offered while connected, in order: the payloads, or as written their first pieces; at most one write is outstanding; when none is and none failed, nothing is buffered |
| SendPipeline.TransmitsPayloads | netpp/net/tcp_conn.cpp:49-58 | these are the payloads themselves if and only if links are read in time or each payload is a single piece; what has been sent is a prefix of them |
| Connection.TCPConn.SendInLoop | netpp/net/tcp_conn.cpp:152-160 | performs the send step of the pipeline on buffers in memory, as written and as intended |
| Connection.TCPConn.HandleWrite | netpp/net/tcp_conn.cpp:162-180 | performs its completion step, or its failure step on an error or an abort |
| Connection.TCPConn.Send | netpp/net/tcp_conn.cpp:83-97 | sends the chain a fresh buffer makes of the bytes; nothing for no bytes or when not connected |
| Connection.TCPConn.SendBuffer | netpp/net/tcp_conn.cpp:99-111 | sends the chain of the buffer and empties it; nothing for an empty one or when not connected |
| Connection.TCPConn.SendMessage | netpp/net/protobuf/codec.cpp:53-57 | while connected, exactly the first block of the frame is accepted for sending, or as intended all of it |
| Connection.DataChain | netpp/net/tcp_conn.cpp:88-90 | the chain of a payload holds it all, its head the first 4096 bytes, and it is one piece if and only if it has no more |
| Connection.TCPConn.HandleRead | netpp/net/tcp_conn.cpp:188-201 | stores a received piece and decodes, as the value functions say; an error closes, and neither it nor an abort changes the input buffer |
| Connection.HandleReads | netpp/net/tcp_conn.cpp:182-201 | a run of reads on a connection in memory is receiving the fragments, up to the first thing undefined |
| EndToEnd.OneMessage | netpp/net/protobuf/codec.cpp:53-57 | over every run of the sender and every fragmentation of what it has sent, the receiver gets the message, once, exactly when its whole frame was sent and not straddled, and before that nothing; after a finished run, as written if and only if the frame fits one block, as intended always |
| EndToEnd.AllMessages | netpp/net/protobuf/codec.cpp:53-57 | any messages with sender and receiver as intended: over every run of the sender and every fragmentation of what it has sent, the receiver has got exactly the messages whose frames were sent whole, in order, each once; after a finished run all of them |
| PiecePools.PoolBound | netpp/net/piece/piece_allocator.cpp:18-71 | over every run of matched calls, live pieces are those in use and those cached, at most 2 * in use + 8, and each deletion frees at most two, so the limit of eight is never reached |
| PiecePools.CallsExact | netpp/net/piece/piece_allocator.cpp:18-71 | in every state a run reaches, a call allocates if and only if nothing is cached, and frees if and only if the cache holds as many pieces as stay in use and 8 more; otherwise the piece is cached |
| PiecePools.KeepsPieces | netpp/net/piece/piece_allocator.cpp:18-71 | over every run of a new pool, no more pieces are live than were in use at the peak, and at least as many unless there were more than 8; with at most 8 in use none is ever freed, and when all are given back the smaller of the peak and 8 are cached |
| PiecePools.FreesTheExcess | netpp/net/piece/piece_allocator.cpp:49-61 | in any state, a deletion brings the cache down to its limit, freeing 8 pieces at most |
| PiecePools.PiecePool.NewPiece | netpp/net/piece/piece_allocator.cpp:18-37 | a cleared piece, a new one if and only if the cache is empty, that the cache no longer owns |
| PiecePools.PiecePool.DeletePiece | netpp/net/piece/piece_allocator.cpp:39-71 | the cache owns the piece afterwards if and only if it was below its limit, and otherwise is at its limit; never pops from an empty cache |
| ConnLifecycle.Lifecycle | netpp/net/tcp_conn.cpp:113-234 | over every interleaving of closes, delayed closes, I/O errors and late timers, the state only moves from connected to disconnecting to disconnected, and each callback runs at most once, in order |
| ConnLifecycle.InternalRunsEnd | netpp/net/tcp_conn.cpp:203-234 | without new calls and I/O, the handlers on their way come to an end |
| ConnLifecycle.LivesEnd | netpp/net/tcp_conn.cpp:113-234 | whatever happens, the life of a connection is a bounded number of steps, besides calls of close |
| ConnLifecycle.NoCloseIsLost | netpp/net/tcp_conn.cpp:113-150 | with no handler on its way, no connection is left disconnecting: a closed one has had both callbacks |
| ConnLifecycle.CallsOnlyAsk | netpp/net/tcp_conn.cpp:113-137 | calls of close and closeWithDelay, however many and from whatever thread, change the status at most: no handler or callback runs and the socket stays as it is |
| ConnLifecycle.ErrorClosesAtOnce | netpp/net/tcp_conn.cpp:203-234 | an I/O error closes the socket in its own step, whatever follows it stays closed and no second error comes, and with no handler left the connection is over |
| ConnLifecycle.DelayedCloseWaits | netpp/net/tcp_conn.cpp:126-137 | after closeWithDelay the socket stays open and no callback runs in any run without the timer and without an I/O error, calls of close included |
| ConnLifecycle.CloseNeedsNoTimer | netpp/net/tcp_conn.cpp:113-124 | after close no timer is ever pending, and with no handler left the connection is over |
| Servers.StopSafety | netpp/net/tcp_server.cpp:55-141 | over every run, with or without workers, interleaved with all steps of the lives of the connections: these stay in the states of their lives, one accept is outstanding while running and at most one later, and the final stop is queued at most once, in the sub-status it asserts, only when no connection is registered and none can be any more |
| Servers.StepDecreases | netpp/net/tcp_server.cpp:55-141 | once stopping, everything that happens and has an effect decreases the work left, I/O errors and calls of close included, and adds no connection to those nobody has asked to close |
| Servers.StopCompletes | netpp/net/tcp_server.cpp:55-104 | after a stop, whatever happens is bounded, and with no handler on its way any more the server has stopped, with the done callback run once and the thread pool stopped, if and only if every connection has been asked to close: always if none was still to be established at the stop, and, unless one is closed later, only then |
| Servers.StopCompletesWithoutWorkers | netpp/net/tcp_server.cpp:55-104 | without worker threads it always ends stopped, whatever happens after the stop |
| Servers.StopCanStall | netpp/net/tcp_server.cpp:70-74 | with workers, a run after which nothing is left to do and the server is still stopping |
| Servers.AskedNoTimer | netpp/net/tcp_server.cpp:70-74 | what stopping does to a connection: a handler is posted, no timer armed, the loop and the socket left alone |
| Servers.NoTimerWithoutDelay | netpp/net/tcp_server.cpp:55-77 | if the program never closes with a delay, no timer is pending in any state a server reaches, before a stop or after it |
| Servers.StopNeedsNoTimer | netpp/net/tcp_server.cpp:55-104 | such a server stops without any timer having run |
| Servers.RegisteredUntilClosed | netpp/net/tcp_server.cpp:111-141 | over every run, the connections numbered are exactly those accepted and verified, and each is registered and not closed if and only if its close callback has not run |
| Servers.QuiescentConn | netpp/net/tcp_conn.cpp:113-234 | with no handler on its way, every registered connection is connected: no close and no removal is lost between the connection's loop and the server's |
| Servers.TCPServer.NewConnection | netpp/net/tcp_server.cpp:105-130 | registers a verified connection under a new number; unless the accept was aborted exactly one is outstanding again, on an acceptor that exists |
| Servers.TCPServer.RemoveConnection | netpp/net/tcp_server.cpp:132-141 | the close callback posts the removal, or without workers erases the connection on the spot, which queues the final stop exactly after the last one of a stopping server |
| Servers.TCPServer.RunRemoval | netpp/net/tcp_server.cpp:132-141 | a posted removal does the same |
| Servers.TCPServer.StopInLoop | netpp/net/tcp_server.cpp:55-77 | performs the stop step: no connection is connected afterwards, or the final stop is queued |
| Servers.TCPServer.StopInloopSafe | netpp/net/tcp_server.cpp:79-103 | performs the final stop step; its assertion on the sub-status and that of stopThreadPool hold |
| ThreadPools.PoolSafety | netpp/net/event_loop_thread_pool.cpp:14-134 | over every interleaving with n > 0 workers, stopped by stop(fn) or stop(true): threads start one after the other; running is stored exactly once, between the last count and the last start hook and before start returns, and is the status from then until a stop; a stop is not undone; stop(true) returns when all workers are done; the done callback of stop(fn) runs exactly once, between the return of the last loop and the end of the last worker |
| ThreadPools.RestsStartedOrStopped | netpp/net/event_loop_thread_pool.cpp:14-134 | the pool never gets stuck: when nothing can happen without a stop, start has returned with the pool running and all workers in their loops, or all workers are done and the pool is stopped |
| ThreadPools.PoolCompletes | netpp/net/event_loop_thread_pool.cpp:14-134 | every run is finite; one that cannot go on has returned from start with the pool running, or, after a stop, has all workers done and the done callback run once |
| ThreadPools.Fair | netpp/net/event_loop_thread_pool.cpp:71-82 | of choices made in turn, each of n threads gets k / n of k, rounded down or up |
| ThreadPools.EventLoopThreadPool.GetNextLoop | netpp/net/event_loop_thread_pool.cpp:71-82 | a thread of the pool while running, the base loop otherwise; after every run of calls, each thread has been chosen its fair share of times |

## Left out

- Boost.Asio, sockets, timers and threads themselves: handlers are steps, completions are arbitrary.
- Protobuf serialisation and parsing themselves: a body is its bytes, the parser a parameter whose result and use of bytes depend on the bytes offered, not on how they are spread over pieces.
- A parser that uses nothing of a piece it has asked for, as on a malformed tag at its start, and gives it back whole: this fails the assertion in `flatBackUp`.
- A send that runs after the connection was closed, a stop from inside the callback for a new connection, and a second `stop` before the first has run: all dereference a null pointer in the code.
- Pool accounting across buffers: `readPiece` and `clear` free pieces without telling the pool, so the bound is about the pool's own calls.
- Wrap-around of `length_`, `size_`, `using_count_`, `next_` and connection numbers: these counters are unbounded here, the 16-bit fields of a piece are bounded by its block.
- Data races on fields that are not atomic, such as the delay timer and the done callback.
- Which error messages the validator prints, and what the matcher reports about a failed pairing.
- A thread pool without threads and `start(false)`: neither waits for anything.
- `TCPClient` and the message dispatcher, which forward to the connection and to a table of callbacks; logging; and the vendored code apart from the two algorithms above.
- Streams.BufferInputStream.BackUp: takes fewer bytes back than were handed out, as its assertion demands; giving all of them back is not modelled.
- Connection.TCPConn.HandleRead: what closing does to the connection's life is in `ConnLifecycle`; the data path only stops accepting sends.
